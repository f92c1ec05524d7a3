// The tokens of Json::Reader, as functions of the document and a position.
module Scanner {
  import opened Text

  datatype TokenType =
    | EndOfStream | ObjectBegin | ObjectEnd | ArrayBegin | ArrayEnd
    | StringToken | NumberToken | TrueToken | FalseToken | NullToken
    | ArraySeparator | MemberSeparator | CommentToken | ErrorToken

  datatype Token = Token(kind: TokenType, start: nat, end: nat)

  /** A scan either succeeds or fails, and ends at a position. */
  datatype Scan = Scan(ok: bool, end: nat)

  function SkipSpaces(doc: string, i: nat): (j: nat)
    requires i <= |doc|
    ensures i <= j <= |doc|
    decreases |doc| - i
  {
    if i < |doc| && IsSpace(doc[i]) then SkipSpaces(doc, i + 1) else i
  }

  predicate IsNumberChar(c: char) {
    IsDigit(c) || c == '.' || c == 'e' || c == 'E' || c == '+' || c == '-'
  }

  function SkipNumber(doc: string, i: nat): (j: nat)
    requires i <= |doc|
    ensures i <= j <= |doc|
    ensures forall k :: i <= k < j ==> IsNumberChar(doc[k])
    decreases |doc| - i
  {
    if i < |doc| && IsNumberChar(doc[i]) then SkipNumber(doc, i + 1) else i
  }

  /** From behind the opening quote to behind the closing one. */
  function ScanString(doc: string, i: nat): (r: Scan)
    requires i <= |doc|
    ensures i <= r.end <= |doc|
    ensures r.ok ==> i < r.end && doc[r.end - 1] == '"'
    decreases |doc| - i
  {
    if i == |doc| then Scan(false, i)
    else if doc[i] == '\\' then ScanString(doc, if i + 2 <= |doc| then i + 2 else |doc|)
    else if doc[i] == '"' then Scan(true, i + 1)
    else ScanString(doc, i + 1)
  }

  /** getNextChar() */
  function Next(doc: string, i: nat): (j: nat)
    requires i <= |doc|
    ensures i <= j <= |doc|
  {
    if i == |doc| then i else i + 1
  }

  /** From behind the opening of a C comment. */
  function ScanCStyle(doc: string, i: nat): (r: Scan)
    requires i <= |doc|
    ensures i <= r.end <= |doc|
    decreases |doc| - i
  {
    if i == |doc| then Scan(false, i)
    else if doc[i] == '*' && Peek(doc, i + 1) == '/' then Scan(true, i + 2)
    else ScanCStyle(doc, i + 1)
  }

  /** To behind the end of the line. */
  function SkipLine(doc: string, i: nat): (j: nat)
    requires i <= |doc|
    ensures i <= j <= |doc|
    decreases |doc| - i
  {
    if i == |doc| then i
    else if doc[i] == '\r' || doc[i] == '\n' then i + 1
    else SkipLine(doc, i + 1)
  }

  /** From behind the first slash. */
  function ScanComment(doc: string, i: nat): (r: Scan)
    requires i <= |doc|
    ensures i <= r.end <= |doc|
  {
    if Peek(doc, i) == '*' then ScanCStyle(doc, i + 1)
    else if Peek(doc, i) == '/' then Scan(true, SkipLine(doc, i + 1))
    else Scan(false, Next(doc, i))
  }

  predicate Matches(doc: string, i: nat, pattern: string) {
    |doc| - i >= |pattern| && doc[i..i + |pattern|] == pattern
  }

  function ScanWord(doc: string, i: nat, pattern: string): (r: Scan)
    requires i <= |doc|
    ensures i <= r.end <= |doc|
  {
    if Matches(doc, i, pattern) then Scan(true, i + |pattern|) else Scan(false, i)
  }

  function Finish(kind: TokenType, start: nat, scan: Scan): Token {
    Token(if scan.ok then kind else ErrorToken, start, scan.end)
  }

  /** readToken(): the reader stands at the end of the token afterwards. */
  function ReadToken(doc: string, i: nat): (t: Token)
    requires i <= |doc|
    ensures i <= t.start <= t.end <= |doc|
    ensures t.kind != EndOfStream ==> t.start < t.end
    ensures t.kind == StringToken ==> t.start + 2 <= t.end
  {
    var start := SkipSpaces(doc, i);
    var i1 := Next(doc, start);
    match Peek(doc, start)
    case '{' => Token(ObjectBegin, start, i1)
    case '}' => Token(ObjectEnd, start, i1)
    case '[' => Token(ArrayBegin, start, i1)
    case ']' => Token(ArrayEnd, start, i1)
    case '"' => Finish(StringToken, start, ScanString(doc, i1))
    case '/' => Finish(CommentToken, start, ScanComment(doc, i1))
    case 't' => Finish(TrueToken, start, ScanWord(doc, i1, "rue"))
    case 'f' => Finish(FalseToken, start, ScanWord(doc, i1, "alse"))
    case 'n' => Finish(NullToken, start, ScanWord(doc, i1, "ull"))
    case ',' => Token(ArraySeparator, start, i1)
    case ':' => Token(MemberSeparator, start, i1)
    case c =>
      if c == NUL then Token(EndOfStream, start, i1)
      else if IsDigit(c) || c == '-' then Token(NumberToken, start, SkipNumber(doc, i1))
      else Token(ErrorToken, start, i1)
  }

  /** The next token that is not a comment. */
  function SkipComments(doc: string, i: nat): (t: Token)
    requires i <= |doc|
    ensures i <= t.start <= t.end <= |doc|
    ensures t.kind != EndOfStream ==> t.start < t.end
    ensures t.kind == StringToken ==> t.start + 2 <= t.end
    ensures t.kind != CommentToken
    decreases |doc| - i
  {
    var t := ReadToken(doc, i);
    if t.kind == CommentToken then SkipComments(doc, t.end) else t
  }

  /** Where recoverFromError stops: behind the next token of that kind, or at the end. */
  function Recover(doc: string, i: nat, kind: TokenType): (j: nat)
    requires i <= |doc|
    ensures i <= j <= |doc|
    decreases |doc| - i
  {
    var t := ReadToken(doc, i);
    if t.kind == kind || t.kind == EndOfStream then t.end else Recover(doc, t.end, kind)
  }

  /** From i the tokens up to position k are neither of that kind nor the end of the stream. */
  ghost predicate PassesTo(doc: string, i: nat, k: nat, kind: TokenType)
    requires i <= |doc|
    decreases |doc| - i
  {
    i == k || (var t := ReadToken(doc, i); t.kind != kind && t.kind != EndOfStream && PassesTo(doc, t.end, k, kind))
  }

  /** recoverFromError stops behind the first token of that kind, or behind the end of the stream. */
  lemma {:induction false} RecoverStops(doc: string, i: nat, kind: TokenType) returns (k: nat)
    requires i <= |doc|
    ensures k <= |doc| && PassesTo(doc, i, k, kind)
    ensures Recover(doc, i, kind) == ReadToken(doc, k).end
    ensures ReadToken(doc, k).kind == kind || ReadToken(doc, k).kind == EndOfStream
    decreases |doc| - i
  {
    var t := ReadToken(doc, i);
    if t.kind == kind || t.kind == EndOfStream {
      k := i;
    } else {
      k := RecoverStops(doc, t.end, kind);
    }
  }

  // ---------- tokens that stand at a known place ----------

  lemma {:induction false} SkipSpacesOver(doc: string, i: nat, j: nat, ws: string)
    requires At(doc, i, j, ws) && AllSpaces(ws)
    ensures SkipSpaces(doc, i) == SkipSpaces(doc, j)
    decreases |ws|
  {
    if ws != "" {
      AtFirst(doc, i, j, ws);
      SkipSpacesOver(doc, i + 1, j, ws[1..]);
    }
  }

  /** Spaces in front of a token do not matter. */
  lemma ReadTokenAfterSpaces(doc: string, i: nat, j: nat, ws: string)
    requires At(doc, i, j, ws) && AllSpaces(ws)
    ensures ReadToken(doc, i) == ReadToken(doc, j)
  {
    SkipSpacesOver(doc, i, j, ws);
  }

  lemma {:induction false} SkipSpacesTwice(doc: string, i: nat)
    requires i <= |doc|
    ensures SkipSpaces(doc, SkipSpaces(doc, i)) == SkipSpaces(doc, i)
    decreases |doc| - i
  {
    if i < |doc| && IsSpace(doc[i]) {
      SkipSpacesTwice(doc, i + 1);
    }
  }

  lemma {:induction false} SkipNumberOver(doc: string, i: nat, j: nat, s: string)
    requires At(doc, i, j, s) && forall k :: 0 <= k < |s| ==> IsNumberChar(s[k])
    requires !IsNumberChar(Peek(doc, j))
    ensures SkipNumber(doc, i) == j
    decreases |s|
  {
    if s != "" {
      AtFirst(doc, i, j, s);
      SkipNumberOver(doc, i + 1, j, s[1..]);
    }
  }

  /** The token a structural character is. */
  function Structural(c: char): TokenType {
    match c
    case '{' => ObjectBegin
    case '}' => ObjectEnd
    case '[' => ArrayBegin
    case ']' => ArrayEnd
    case ',' => ArraySeparator
    case ':' => MemberSeparator
    case _ => ErrorToken
  }

  /** A token of one byte. */
  lemma ReadStructural(doc: string, i: nat, j: nat, c: char)
    requires At(doc, i, j, [c]) && Structural(c) != ErrorToken
    ensures ReadToken(doc, i) == Token(Structural(c), i, j)
  {
    AtFirst(doc, i, j, [c]);
    assert SkipSpaces(doc, i) == i && Peek(doc, i) == c;
    match c
    case '{' =>
    case '}' =>
    case '[' =>
    case ']' =>
    case ',' =>
    case ':' =>
  }

  /** A number token, followed by something that cannot continue it. */
  lemma ReadNumberAt(doc: string, i: nat, j: nat, s: string)
    requires At(doc, i, j, s) && s != "" && (IsDigit(s[0]) || s[0] == '-')
    requires forall k :: 0 <= k < |s| ==> IsNumberChar(s[k])
    requires !IsNumberChar(Peek(doc, j))
    ensures ReadToken(doc, i) == Token(NumberToken, i, j)
  {
    AtFirst(doc, i, j, s);
    SkipNumberOver(doc, i + 1, j, s[1..]);
  }

  lemma ReadNull(doc: string, i: nat, j: nat)
    requires At(doc, i, j, "null")
    ensures ReadToken(doc, i) == Token(NullToken, i, j)
  {
    AtFirst(doc, i, j, "null");
    AtSlice(doc, i + 1, j, "ull");
  }

  lemma ReadBool(doc: string, i: nat, j: nat, b: bool)
    requires At(doc, i, j, if b then "true" else "false")
    ensures ReadToken(doc, i) == Token(if b then TrueToken else FalseToken, i, j)
  {
    AtFirst(doc, i, j, if b then "true" else "false");
    AtSlice(doc, i + 1, j, if b then "rue" else "alse");
  }

  // ---------- the text as a sequence of tokens ----------

  /** The texts of the tokens from position i on, up to the end of the stream. */
  ghost function Tokenize(doc: string, i: nat): seq<string>
    requires i <= |doc|
    decreases |doc| - i
  {
    var t := ReadToken(doc, i);
    if t.kind == EndOfStream then [] else [doc[t.start..t.end]] + Tokenize(doc, t.end)
  }

  /** The token at i, then the others. */
  lemma TokenizeOne(doc: string, i: nat, j: nat, s: string)
    requires At(doc, i, j, s)
    requires var t := ReadToken(doc, i); t.kind != EndOfStream && t.start == i && t.end == j
    ensures Tokenize(doc, i) == [s] + Tokenize(doc, j)
  {
    AtSlice(doc, i, j, s);
  }

  lemma TokenizeAfterSpaces(doc: string, i: nat, j: nat, ws: string)
    requires At(doc, i, j, ws) && AllSpaces(ws)
    ensures Tokenize(doc, i) == Tokenize(doc, j)
  {
    ReadTokenAfterSpaces(doc, i, j, ws);
  }
}
