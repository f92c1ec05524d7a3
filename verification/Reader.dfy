// Class Reader (json_reader.cpp), without comment collection.
module Readers {
  import opened Text
  import opened Values
  import opened Numbers
  import opened Scanner
  import opened Unicode
  import opened Strings
  import opened Parser
  import opened Nodes

  /** The errors an outcome adds to the list. */
  function Listed(error: Option<ErrorInfo>): seq<ErrorInfo> {
    match error
    case Some(e) => [e]
    case None => []
  }

  class Reader {
    const settings: Settings
    var document: string
    var current: nat
    var errors: seq<ErrorInfo>
    /** The pointers on the stack, as access paths into the root. */
    var nodes: seq<Path>
    var root: Value

    constructor (settings: Settings)
      ensures this.settings == settings
    {
      this.settings := settings;
      document, current, errors, nodes, root := "", 0, [], [], Null;
    }

    /** begin_ <= current_ <= end_, and the node on top of the stack is part of the root. */
    ghost predicate Valid()
      reads this
    {
      current <= |document| && nodes != [] && HasPath(root, Top())
    }

    ghost function Top(): Path
      reads this`nodes
      requires nodes != []
    {
      nodes[|nodes| - 1]
    }

    // ---------- scanning ----------

    method GetNextChar() returns (c: char)
      requires current <= |document|
      modifies this`current
      ensures c == Peek(document, old(current)) && current == Next(document, old(current))
    {
      if current == |document| {
        return NUL;
      }
      c := document[current];
      current := current + 1;
    }

    method SkipSpaces()
      requires current <= |document|
      modifies this`current
      ensures current == Scanner.SkipSpaces(document, old(current))
    {
      while current != |document|
        invariant current <= |document|
        invariant Scanner.SkipSpaces(document, current) == Scanner.SkipSpaces(document, old(current))
        decreases |document| - current
      {
        var c := document[current];
        if c == ' ' || c == '\t' || c == '\r' || c == '\n' {
          current := current + 1;
        } else {
          break;
        }
      }
    }

    method Match(pattern: string) returns (ok: bool)
      requires current <= |document|
      modifies this`current
      ensures Scan(ok, current) == ScanWord(document, old(current), pattern)
    {
      if |document| - current < |pattern| {
        return false;
      }
      var index := |pattern|;
      while index > 0
        invariant 0 <= index <= |pattern|
        invariant forall k :: index <= k < |pattern| ==> document[current + k] == pattern[k]
      {
        index := index - 1;
        if document[current + index] != pattern[index] {
          assert document[current..current + |pattern|][index] != pattern[index];
          return false;
        }
      }
      assert document[current..current + |pattern|] == pattern;
      current := current + |pattern|;
      return true;
    }

    method ReadComment() returns (ok: bool)
      requires current <= |document|
      modifies this`current
      ensures Scan(ok, current) == ScanComment(document, old(current))
    {
      var c := GetNextChar();
      var successful := false;
      if c == '*' {
        successful := ReadCStyleComment();
      } else if c == '/' {
        successful := ReadCppStyleComment();
      }
      return successful;
    }

    method ReadCStyleComment() returns (ok: bool)
      requires current <= |document|
      modifies this`current
      ensures Scan(ok, current) == ScanCStyle(document, old(current))
    {
      while current != |document|
        invariant current <= |document|
        invariant ScanCStyle(document, current) == ScanCStyle(document, old(current))
        decreases |document| - current
      {
        ghost var before := current;
        var c := GetNextChar();
        if c == '*' && Peek(document, current) == '/' {
          assert ScanCStyle(document, before) == Scan(true, current + 1);
          var slash := GetNextChar();
          return slash == '/';
        }
      }
      var c := GetNextChar();
      return c == '/';
    }

    method ReadCppStyleComment() returns (ok: bool)
      requires current <= |document|
      modifies this`current
      ensures ok && current == SkipLine(document, old(current))
    {
      while current != |document|
        invariant current <= |document|
        invariant SkipLine(document, current) == SkipLine(document, old(current))
        decreases |document| - current
      {
        ghost var before := current;
        var c := GetNextChar();
        if c == '\r' || c == '\n' {
          assert SkipLine(document, before) == current;
          return true;
        }
      }
      return true;
    }

    method ReadNumber()
      requires current <= |document|
      modifies this`current
      ensures current == SkipNumber(document, old(current))
    {
      while current != |document|
        invariant current <= |document|
        invariant SkipNumber(document, current) == SkipNumber(document, old(current))
        decreases |document| - current
      {
        var c := document[current];
        if !('0' <= c <= '9') && !(c == '.' || c == 'e' || c == 'E' || c == '+' || c == '-') {
          break;
        }
        current := current + 1;
      }
    }

    method ReadString() returns (ok: bool)
      requires current <= |document|
      modifies this`current
      ensures Scan(ok, current) == ScanString(document, old(current))
    {
      var c := NUL;
      while current != |document|
        invariant current <= |document|
        invariant c != '"'
        invariant ScanString(document, current) == ScanString(document, old(current))
        decreases |document| - current
      {
        c := GetNextChar();
        if c == '\\' {
          var _ := GetNextChar();
        } else if c == '"' {
          break;
        }
      }
      return c == '"';
    }

    method ReadToken() returns (token: Token)
      requires current <= |document|
      modifies this`current
      ensures token == Scanner.ReadToken(document, old(current)) && current == token.end
    {
      SkipSpaces();
      var start := current;
      var c := GetNextChar();
      var ok := true;
      var kind;
      match c {
        case '{' => kind := ObjectBegin;
        case '}' => kind := ObjectEnd;
        case '[' => kind := ArrayBegin;
        case ']' => kind := ArrayEnd;
        case '"' =>
          kind := StringToken;
          ok := ReadString();
        case '/' =>
          kind := CommentToken;
          ok := ReadComment();
        case 't' =>
          kind := TrueToken;
          ok := Match("rue");
        case 'f' =>
          kind := FalseToken;
          ok := Match("alse");
        case 'n' =>
          kind := NullToken;
          ok := Match("ull");
        case ',' => kind := ArraySeparator;
        case ':' => kind := MemberSeparator;
        case _ =>
          if c == NUL {
            kind := EndOfStream;
          } else if IsDigit(c) || c == '-' {
            kind := NumberToken;
            ReadNumber();
          } else {
            ok := false;
            kind := ErrorToken;
          }
      }
      token := Token(if ok then kind else ErrorToken, start, current);
    }

    /** The loops that read a token until it is not a comment. */
    method ReadTokenAfterComments() returns (token: Token)
      requires current <= |document|
      modifies this`current
      ensures token == Scanner.SkipComments(document, old(current)) && current == token.end
    {
      token := ReadToken();
      while token.kind == CommentToken
        invariant current == token.end <= |document|
        invariant Scanner.SkipComments(document, old(current))
               == if token.kind == CommentToken then Scanner.SkipComments(document, current) else token
        decreases |document| - current, token.kind == CommentToken
      {
        token := ReadToken();
      }
    }

    method SkipCommentTokens() returns (token: Token)
      requires current <= |document|
      modifies this`current
      ensures token == FirstToken(settings, document, old(current)) && current == token.end
    {
      if settings.allowComments {
        token := ReadTokenAfterComments();
      } else {
        token := ReadToken();
      }
    }

    // ---------- errors ----------

    method AddError(message: Message, token: Token, extra: Option<nat>) returns (ok: bool)
      modifies this`errors
      ensures !ok && errors == old(errors) + [ErrorInfo(token, message, extra)]
    {
      errors := errors + [ErrorInfo(token, message, extra)];
      return false;
    }

    method RecoverFromError(skipUntilToken: TokenType) returns (ok: bool)
      requires current <= |document|
      modifies this`current, this`errors
      ensures !ok && errors == old(errors)
      ensures current == Recover(document, old(current), skipUntilToken)
    {
      var errorCount := |errors|;
      while true
        invariant current <= |document| && errors == old(errors)
        invariant Recover(document, current, skipUntilToken) == Recover(document, old(current), skipUntilToken)
        decreases |document| - current
      {
        var skip := ReadToken();
        if skip.kind == skipUntilToken || skip.kind == EndOfStream {
          break;
        }
      }
      errors := errors[..errorCount];
      return false;
    }

    method AddErrorAndRecover(message: Message, token: Token, skipUntilToken: TokenType) returns (ok: bool)
      requires current <= |document|
      modifies this`current, this`errors
      ensures !ok && errors == old(errors) + [ErrorAt(token, message)]
      ensures current == Recover(document, old(current), skipUntilToken)
    {
      var _ := AddError(message, token, None);
      ok := RecoverFromError(skipUntilToken);
    }

    // ---------- decoding ----------

    method DecodeUnicodeEscapeSequence(token: Token, begin: nat, end: nat) returns (ok: bool, next: nat, unicode: nat)
      requires begin <= end <= |document|
      modifies this`errors
      ensures match DecodeHex4(document, begin, end)
              case CodePoint(cp, after) => ok && unicode == cp && next == after && errors == old(errors)
              case UnicodeError(message, at) => !ok && errors == old(errors) + [ErrorInfo(token, message, Some(at))]
    {
      assert end - begin >= 4 ==> DecodeHex4(document, begin, end) == DecodeDigits(document, begin, 0, 0);
      hide DecodeDigits;
      next, unicode := begin, 0;
      if end - next < 4 {
        ok := AddError(FourDigitsExpected, token, Some(next));
        return;
      }
      var index := 0;
      while index < 4
        invariant 0 <= index <= 4 && next == begin + index
        invariant errors == old(errors)
        invariant DecodeDigits(document, begin, 0, 0) == DecodeDigits(document, next, index, unicode)
      {
        var c := document[next];
        DecodeDigit(document, next, index, unicode);
        next := next + 1;
        unicode := unicode * 16;
        if '0' <= c <= '9' {
          unicode := unicode + (c as nat - '0' as nat);
        } else if 'a' <= c <= 'f' {
          unicode := unicode + (c as nat - 'a' as nat + 10);
        } else if 'A' <= c <= 'F' {
          unicode := unicode + (c as nat - 'A' as nat + 10);
        } else {
          ok := AddError(HexDigitExpected, token, Some(next));
          return;
        }
        index := index + 1;
      }
      ok := true;
    }

    method DecodeUnicodeCodePoint(token: Token, begin: nat, end: nat) returns (ok: bool, next: nat, unicode: nat)
      requires begin <= end <= |document|
      modifies this`errors
      ensures match DecodeCodePoint(document, begin, end)
              case CodePoint(cp, after) => ok && unicode == cp && next == after && errors == old(errors)
              case UnicodeError(message, at) => !ok && errors == old(errors) + [ErrorInfo(token, message, Some(at))]
    {
      hide DecodeHex4;
      ok, next, unicode := DecodeUnicodeEscapeSequence(token, begin, end);
      if !ok {
        return;
      }
      if unicode >= 0xD800 && unicode <= 0xDBFF {
        if end - next < 6 {
          ok := AddError(SurrogateTooShort, token, Some(next));
          return;
        }
        var c := document[next];
        next := next + 1;
        if c == '\\' {
          c := document[next];
          next := next + 1;
          if c == 'u' {
            var surrogatePair;
            ok, next, surrogatePair := DecodeUnicodeEscapeSequence(token, next, end);
            if ok {
              unicode := 0x10000 + unicode % 0x400 * 0x400 + surrogatePair % 0x400;
            }
            return;
          }
        }
        ok := AddError(SurrogateExpected, token, Some(next));
        return;
      }
      ok := true;
    }

    /** decodeString() into a string; on a token of the scanner it never leaves the token, and
        meets neither a bare quote nor an empty escape. */
    method DecodeToString(token: Token) returns (ok: bool, decoded: string)
      requires token.start + 2 <= token.end <= |document|
      modifies this`errors
      ensures match DecodeString(document, token)
              case Decoded(text, _) => ok && decoded == text && errors == old(errors)
              case Rejected(error) => !ok && errors == old(errors) + [error]
    {
      decoded := "";
      var begin := token.start + 1;
      var end := token.end - 1;
      hide DecodeCodePoint, CodePointToUtf8;
      while begin != end
        invariant token.start < begin <= end
        invariant errors == old(errors)
        invariant DecodeFrom(document, token, begin, end, decoded) == DecodeString(document, token)
        decreases end - begin
      {
        var c := document[begin];
        begin := begin + 1;
        if c == '"' {
          ok := true;
          return;
        } else if c == '\\' {
          if begin == end {
            ok := AddError(EmptyEscape, token, Some(begin));
            return;
          }
          var escape := document[begin];
          begin := begin + 1;
          match escape {
            case '"' => decoded := decoded + ['"'];
            case '/' => decoded := decoded + ['/'];
            case '\\' => decoded := decoded + ['\\'];
            case 'b' => decoded := decoded + ['\U{08}'];
            case 'f' => decoded := decoded + ['\U{0C}'];
            case 'n' => decoded := decoded + ['\n'];
            case 'r' => decoded := decoded + ['\r'];
            case 't' => decoded := decoded + ['\t'];
            case 'u' =>
              var good, next, unicode := DecodeUnicodeCodePoint(token, begin, end);
              if !good {
                ok := false;
                return;
              }
              begin := next;
              decoded := decoded + CodePointToUtf8(unicode);
            case _ =>
              ok := AddError(BadEscape, token, Some(begin));
              return;
          }
        } else {
          decoded := decoded + [c];
        }
      }
      ok := true;
    }

    /** currentValue() = v */
    method Assign(v: Value)
      requires Valid()
      modifies this`root
      ensures Holds(old(root), v)
    {
      root := Put(root, nodes[|nodes| - 1], v);
      PutThenGet(old(root), Top(), v, v);
    }

    method DecodeStringValue(token: Token) returns (ok: bool)
      requires Valid() && token.start + 2 <= token.end <= |document|
      modifies this`errors, this`root
      ensures Valid()
      ensures match DecodeString(document, token)
              case Decoded(text, _) => ok && errors == old(errors) && Holds(old(root), Str(CStr(text)))
              case Rejected(error) => !ok && errors == old(errors) + [error] && root == old(root)
    {
      var decoded;
      ok, decoded := DecodeToString(token);
      if !ok {
        return;
      }
      Assign(Str(CStr(decoded)));
    }

    method DecodeNumberValue(token: Token) returns (ok: bool)
      requires Valid() && token.start < token.end <= |document|
      modifies this`errors, this`root
      ensures Valid()
      ensures match DecodeNumber(settings, TokenText(document, token))
              case Some(v) => ok && errors == old(errors) && Holds(old(root), v)
              case None => !ok && root == old(root)
                           && errors == old(errors) + [ErrorAt(token, NotANumber(TokenText(document, token)))]
    {
      ghost var text := TokenText(document, token);
      var isDouble := false;
      var inspect := token.start;
      while inspect != token.end
        invariant token.start <= inspect <= token.end
        invariant isDouble <==> exists k :: 0 <= k < inspect - token.start && IsDoubleChar(text[k], k == 0)
        decreases token.end - inspect
      {
        assert document[inspect] == text[inspect - token.start];
        var c := document[inspect];
        isDouble := isDouble || c == '.' || c == 'e' || c == 'E' || c == '+' || (c == '-' && inspect != token.start);
        inspect := inspect + 1;
      }
      if isDouble {
        ok := DecodeDoubleValue(token);
        return;
      }
      var begin := token.start;
      assert document[begin] == text[0];
      var isNegative := document[begin] == '-';
      if isNegative {
        begin := begin + 1;
      }
      var maxIntegerValue: UInt64 := if isNegative then TWO_63 else TWO_64 - 1;
      var threshold := maxIntegerValue / 10;
      var lastDigitThreshold := maxIntegerValue % 10;
      var value: UInt64 := 0;
      ghost var result := Accumulate(text, if isNegative then 1 else 0, 0, maxIntegerValue);
      hide LooksDouble, IsDoubleChar;
      while begin < token.end
        invariant token.start <= begin <= token.end
        invariant errors == old(errors) && root == old(root)
        invariant Accumulate(text, begin - token.start, value, maxIntegerValue) == result
        decreases token.end - begin
      {
        assert document[begin] == text[begin - token.start];
        var c := document[begin];
        begin := begin + 1;
        if c < '0' || c > '9' {
          ok := AddError(NotANumber(TokenText(document, token)), token, None);
          return;
        }
        var digit := c as nat - '0' as nat;
        if value >= threshold {
          if begin != token.end || digit > lastDigitThreshold {
            ok := DecodeDoubleValue(token);
            return;
          }
        }
        value := WrapU64(value * 10 + digit);
      }
      assert result == Whole(value);
      if isNegative {
        Assign(Int(WrapI64(-WrapI64(value))));
      } else if value <= MAX_INT {
        Assign(Int(value));
      } else {
        Assign(UInt(value));
      }
      ok := true;
    }

    method DecodeDoubleValue(token: Token) returns (ok: bool)
      requires Valid() && token.start < token.end <= |document|
      modifies this`errors, this`root
      ensures Valid()
      ensures match DecodeDouble(settings, TokenText(document, token))
              case Some(v) => ok && errors == old(errors) && Holds(old(root), v)
              case None => !ok && root == old(root)
                           && errors == old(errors) + [ErrorAt(token, NotANumber(TokenText(document, token)))]
    {
      match settings.scan(TokenText(document, token)) {
        case Some(r) =>
          Assign(Real(r));
          ok := true;
        case None =>
          ok := AddError(NotANumber(TokenText(document, token)), token, None);
      }
    }

    // ---------- parsing ----------

    /** nodes_.push( &currentValue()[step] ), where the child exists. */
    method Push(step: Step)
      requires Valid() && HasChild(Get(root, Top()), step)
      modifies this`nodes
      ensures Valid() && nodes == old(nodes) + [old(Top()) + [step]]
      ensures Get(root, Top()) == Child(Get(root, old(Top())), step)
    {
      ChildPath(root, Top(), step, root);
      nodes := nodes + [nodes[|nodes| - 1] + [step]];
    }

    method Pop()
      requires nodes != []
      modifies this`nodes
      ensures nodes == old(nodes)[..|old(nodes)| - 1]
    {
      nodes := nodes[..|nodes| - 1];
    }

    /** The root is what it was before, with v at the current node. */
    ghost predicate Holds(before: Value, v: Value)
      reads this`nodes, this`root
    {
      && nodes != [] && HasPath(before, Top()) && HasPath(root, Top())
      && root == Put(before, Top(), v) && Get(root, Top()) == v
    }

    /** Reads a value into the child at step of the current node, which is created as null if it
        does not exist yet: currentValue()[step], push, readValue and pop. */
    method ReadChild(step: Step, ghost before: Value, ghost v: Value) returns (ok: bool)
      requires current <= |document| && Holds(before, v) && CanCreate(v, step)
      modifies this
      ensures document == old(document) && nodes == old(nodes)
      ensures var r := Parser.ReadValue(settings, document, old(current), Child(Created(v, step), step));
              && (ok <==> r.error.None?) && current == r.pos && errors == old(errors) + Listed(r.error)
              && Holds(before, WithChild(Created(v, step), step, r.value))
      decreases |document| - current, 1, 0
    {
      ghost var top, stack, created := Top(), nodes, Created(v, step);
      ghost var r := Parser.ReadValue(settings, document, current, Child(created, step));
      PutThenGet(before, top, v, created);
      Assign(Created(Get(root, nodes[|nodes| - 1]), step));
      ghost var middle := root;
      assert middle == Put(before, top, created);
      Push(step);
      ok := ReadValue();
      Pop();
      assert nodes == stack;
      ChildPath(middle, top, step, r.value);
      PutThenGet(before, top, created, WithChild(created, step, r.value));
      PutThenGet(before, top, WithChild(created, step, r.value), v);
    }

    /** readValue(): the current node receives what Parser.ReadValue says, the stack of nodes is
        restored, and at most one error is added. */
    method ReadValue() returns (ok: bool)
      requires Valid()
      modifies this
      ensures document == old(document) && nodes == old(nodes)
      ensures var r := Parser.ReadValue(settings, document, old(current), old(Get(root, Top())));
              && (ok <==> r.error.None?) && current == r.pos && errors == old(errors) + Listed(r.error)
              && Holds(old(root), r.value)
      decreases |document| - current, 0
    {
      PutBack(root, Top());
      hide Put, Get, HasPath, DecodeString, DecodeNumber, ReadMembers, Parser.ReadArray, FirstToken;
      var token := SkipCommentTokens();
      ok := true;
      match token.kind {
        case ObjectBegin => ok := ReadObject();
        case ArrayBegin => ok := ReadArray();
        case NumberToken => ok := DecodeNumberValue(token);
        case StringToken => ok := DecodeStringValue(token);
        case TrueToken => Assign(Bool(true));
        case FalseToken => Assign(Bool(false));
        case NullToken => Assign(Null);
        case _ => ok := AddError(ValueExpected, token, None);
      }
    }

    /** readObject() from behind the opening brace. */
    method ReadObject() returns (ok: bool)
      requires Valid()
      modifies this
      ensures document == old(document) && nodes == old(nodes)
      ensures var r := ReadMembers(settings, document, old(current), map[], true);
              && (ok <==> r.error.None?) && current == r.pos && errors == old(errors) + Listed(r.error)
              && Holds(old(root), r.value)
      decreases |document| - current, 4
    {
      ghost var members: map<CString, Value> := map[];
      var name := "";
      Assign(Obj(map[]));
      hide ReadMembers, Holds;
      var more := true;
      ok := true;
      while more
        invariant document == old(document) && nodes == old(nodes) && old(current) <= current <= |document|
        invariant var r := ReadMembers(settings, document, old(current), map[], true);
                  if more then
                    && Holds(old(root), Obj(members)) && errors == old(errors)
                    && ReadMembers(settings, document, current, members, name == "") == r
                  else
                    && (ok <==> r.error.None?) && current == r.pos && errors == old(errors) + Listed(r.error)
                    && Holds(old(root), r.value)
        decreases |document| - current, more
      {
        more, ok, name, members := ReadMember(name, old(root), members);
      }
    }

    /** One turn of the loop of readObject(). */
    method ReadMember(last: string, ghost before: Value, ghost members: map<CString, Value>)
      returns (more: bool, ok: bool, name: string, ghost members': map<CString, Value>)
      requires current <= |document| && Holds(before, Obj(members))
      modifies this
      ensures document == old(document) && nodes == old(nodes) && current <= |document|
      ensures var r := ReadMembers(settings, document, old(current), members, last == "");
              if more then
                && current > old(current) && Holds(before, Obj(members')) && errors == old(errors)
                && ReadMembers(settings, document, current, members', name == "") == r
              else
                && current >= old(current)
                && (ok <==> r.error.None?) && current == r.pos && errors == old(errors) + Listed(r.error)
                && Holds(before, r.value)
      decreases |document| - current, 3
    {
      hide Parser.ReadMemberValue, ReadMembers, Holds;
      members' := members;
      more, ok, name := ReadMemberName(last, before, members);
      if more {
        more, ok, members' := ReadMemberValue(name, before, members);
      }
    }

    /** The turn up to the colon. */
    method ReadMemberName(last: string, ghost before: Value, ghost members: map<CString, Value>)
      returns (go: bool, ok: bool, name: string)
      requires current <= |document| && Holds(before, Obj(members))
      modifies this`current, this`errors
      ensures old(current) <= current <= |document| && Holds(before, Obj(members))
      ensures var r := ReadMembers(settings, document, old(current), members, last == "");
              if go then
                && current > old(current) && errors == old(errors)
                && Parser.ReadMemberValue(settings, document, current, members, name) == r
              else
                && (ok <==> r.error.None?) && current == r.pos && errors == old(errors) + Listed(r.error)
                && r.value == Obj(members)
    {
      hide Parser.ReadMemberValue, Scanner.ReadToken, Scanner.SkipComments, DecodeString, Recover, Holds;
      go, ok, name := false, false, last;
      var tokenName := ReadTokenAfterComments();
      if tokenName.kind == ObjectEnd && name == "" {
        ok := true;
        return;
      }
      if tokenName.kind != StringToken {
        ok := AddErrorAndRecover(MissingMemberName, tokenName, ObjectEnd);
        return;
      }
      ok, name := DecodeToString(tokenName);
      if !ok {
        ok := RecoverFromError(ObjectEnd);
        return;
      }
      var colon := ReadToken();
      if colon.kind != MemberSeparator {
        ok := AddErrorAndRecover(MissingColon, colon, ObjectEnd);
        return;
      }
      go := true;
    }

    /** The value of one member. */
    method ReadNamed(key: CString, ghost before: Value, ghost members: map<CString, Value>) returns (ok: bool)
      requires current <= |document| && Holds(before, Obj(members))
      modifies this
      ensures document == old(document) && nodes == old(nodes)
      ensures var r := Parser.ReadValue(settings, document, old(current), MemberAt(members, key));
              && (ok <==> r.error.None?) && current == r.pos && errors == old(errors) + Listed(r.error)
              && Holds(before, Obj(members[key := r.value]))
      decreases |document| - current, 1, 1
    {
      hide Parser.ReadValue, Holds;
      ghost var child := Parser.ReadValue(settings, document, current, MemberAt(members, key));
      ok := ReadChild(Name(key), before, Obj(members));
      assert WithChild(Created(Obj(members), Name(key)), Name(key), child.value) == Obj(members[key := child.value]);
    }

    /** The rest of the turn, from behind the colon. */
    method ReadMemberValue(name: string, ghost before: Value, ghost members: map<CString, Value>)
      returns (more: bool, ok: bool, ghost members': map<CString, Value>)
      requires current <= |document| && Holds(before, Obj(members))
      modifies this
      ensures document == old(document) && nodes == old(nodes) && current <= |document|
      ensures var r := Parser.ReadMemberValue(settings, document, old(current), members, name);
              if more then
                && current > old(current) && Holds(before, Obj(members')) && errors == old(errors)
                && ReadMembers(settings, document, current, members', name == "") == r
              else
                && current >= old(current)
                && (ok <==> r.error.None?) && current == r.pos && errors == old(errors) + Listed(r.error)
                && Holds(before, r.value)
      decreases |document| - current, 2
    {
      hide Parser.ReadValue, Scanner.ReadToken, Scanner.SkipComments, ReadMembers, Recover, Holds, FirstToken;
      more, ok := false, false;
      var key := CStr(name);
      ghost var child := Parser.ReadValue(settings, document, current, MemberAt(members, key));
      ok := ReadNamed(key, before, members);
      members' := members[key := child.value];
      if !ok {
        ok := RecoverFromError(ObjectEnd);
        return;
      }
      var comma := ReadToken();
      if comma.kind != ObjectEnd && comma.kind != ArraySeparator && comma.kind != CommentToken {
        ok := AddErrorAndRecover(MissingCommaInObject, comma, ObjectEnd);
        return;
      }
      CommentsSkipped(document, child.pos);
      if comma.kind == CommentToken {
        comma := ReadTokenAfterComments();
      }
      if comma.kind == ObjectEnd {
        ok := true;
        return;
      }
      more := true;
    }

    /** readArray() from behind the opening bracket. */
    method ReadArray() returns (ok: bool)
      requires Valid()
      modifies this
      ensures document == old(document) && nodes == old(nodes)
      ensures var r := Parser.ReadArray(settings, document, old(current));
              && (ok <==> r.error.None?) && current == r.pos && errors == old(errors) + Listed(r.error)
              && Holds(old(root), r.value)
      decreases |document| - current, 4
    {
      Assign(Arr(map[]));
      SkipSpaces();
      if Peek(document, current) == ']' {
        ghost var here := current;
        SpacesSkipped(document, old(current));
        var _ := ReadToken();
        assert current == here + 1;
        return true;
      }
      ok := ReadElements(old(root));
    }

    /** The loop of readArray(). */
    method ReadElements(ghost before: Value) returns (ok: bool)
      requires current <= |document| && Holds(before, Arr(map[]))
      modifies this
      ensures document == old(document) && nodes == old(nodes)
      ensures var r := Parser.ReadElements(settings, document, old(current), map[], 0);
              && (ok <==> r.error.None?) && current == r.pos && errors == old(errors) + Listed(r.error)
              && Holds(before, r.value)
      decreases |document| - current, 3
    {
      ghost var items: map<nat, Value> := map[];
      var index := 0;
      hide Parser.ReadElements, Holds;
      var more := true;
      ok := true;
      while more
        invariant document == old(document) && nodes == old(nodes) && old(current) <= current <= |document|
        invariant var r := Parser.ReadElements(settings, document, old(current), map[], 0);
                  if more then
                    && Holds(before, Arr(items)) && errors == old(errors)
                    && Parser.ReadElements(settings, document, current, items, index) == r
                  else
                    && (ok <==> r.error.None?) && current == r.pos && errors == old(errors) + Listed(r.error)
                    && Holds(before, r.value)
        decreases |document| - current, more
      {
        more, ok, items := ReadElement(index, before, items);
        index := index + 1;
      }
    }

    /** One turn of the loop of readArray(). */
    method ReadElement(index: nat, ghost before: Value, ghost items: map<nat, Value>)
      returns (more: bool, ok: bool, ghost items': map<nat, Value>)
      requires current <= |document| && Holds(before, Arr(items))
      modifies this
      ensures document == old(document) && nodes == old(nodes) && current <= |document|
      ensures var r := Parser.ReadElements(settings, document, old(current), items, index);
              if more then
                && current > old(current) && Holds(before, Arr(items')) && errors == old(errors)
                && Parser.ReadElements(settings, document, current, items', index + 1) == r
              else
                && current >= old(current)
                && (ok <==> r.error.None?) && current == r.pos && errors == old(errors) + Listed(r.error)
                && Holds(before, r.value)
      decreases |document| - current, 2
    {
      hide Parser.ReadValue, Scanner.ReadToken, Scanner.SkipComments, Recover, Holds;
      more, ok := false, false;
      ghost var child := Parser.ReadValue(settings, document, current, ElementAt(items, index));
      ok := ReadChild(Index(index), before, Arr(items));
      items' := items[index := child.value];
      assert WithChild(Created(Arr(items), Index(index)), Index(index), child.value) == Arr(items');
      if !ok {
        ok := RecoverFromError(ArrayEnd);
        return;
      }
      var token := ReadTokenAfterComments();
      if token.kind != ArraySeparator && token.kind != ArrayEnd {
        ok := AddErrorAndRecover(MissingCommaInArray, token, ArrayEnd);
        return;
      }
      if token.kind == ArrayEnd {
        ok := true;
        return;
      }
      more := true;
    }

    /** parse() of a document into the root. */
    method Parse(text: string) returns (ok: bool)
      modifies this
      ensures document == text && nodes == [[]]
      ensures Parsed(ok, root, errors) == Parser.Parse(settings, text, old(root))
      ensures ok <==> errors == []
      ensures !settings.strictRoot && !ok ==> |errors| == 1
    {
      document := text;
      current := 0;
      errors := [];
      nodes := [[]];
      var successful := ReadValue();
      var token := SkipCommentTokens();
      if settings.strictRoot {
        if !IsRoot(root) {
          token := Token(ErrorToken, 0, |document|);
          ok := AddError(RootNotAContainer, token, None);
          return;
        }
      }
      return successful;
    }
  }

  /** The value can have a child at this step. */
  predicate CanCreate(v: Value, step: Step) {
    match step
    case Index(_) => v.Arr?
    case Name(_) => v.Obj?
  }

  /** operator[] on a container: a missing child is inserted as null. */
  function Created(v: Value, step: Step): (r: Value)
    requires CanCreate(v, step)
    ensures HasChild(r, step)
  {
    match step
    case Index(k) => Arr(v.items[k := ElementAt(v.items, k)])
    case Name(name) => Obj(v.members[name := MemberAt(v.members, name)])
  }

  /** Skipping comments token by token. */
  lemma CommentsSkipped(doc: string, i: nat)
    requires i <= |doc|
    ensures var t := Scanner.ReadToken(doc, i);
            Scanner.SkipComments(doc, i) == if t.kind == CommentToken then Scanner.SkipComments(doc, t.end) else t
  {
  }

  lemma SpacesSkipped(doc: string, i: nat)
    requires i <= |doc| && Peek(doc, Scanner.SkipSpaces(doc, i)) == ']'
    ensures var j := Scanner.SkipSpaces(doc, i); Scanner.ReadToken(doc, j) == Token(ArrayEnd, j, j + 1)
  {
    SkipSpacesTwice(doc, i);
  }
}
