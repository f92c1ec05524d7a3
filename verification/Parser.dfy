// What Json::Reader::parse computes, as functions of the document: the specification the
// Reader class is proved against, and the one the theorems about parsing speak of.
module Parser {
  import opened Text
  import opened Values
  import opened Numbers
  import opened Scanner
  import opened Strings

  /** Features of a reader, and sscanf("%lf") of the C library: the number it reads at the start
      of a text, if there is one. */
  datatype Settings = Settings(allowComments: bool, strictRoot: bool, scan: string -> Option<real>)

  /** Where reading a value ends, what the node then holds, and the error if there was one. */
  datatype Outcome = Outcome(pos: nat, value: Value, error: Option<ErrorInfo>)

  function TokenText(doc: string, token: Token): string
    requires token.start <= token.end <= |doc|
  {
    doc[token.start..token.end]
  }

  predicate IsDoubleChar(c: char, first: bool) {
    c == '.' || c == 'e' || c == 'E' || c == '+' || (c == '-' && !first)
  }

  predicate LooksDouble(text: string) {
    exists k :: 0 <= k < |text| && IsDoubleChar(text[k], k == 0)
  }

  /** decodeDouble */
  function DecodeDouble(settings: Settings, text: string): Option<Value> {
    match settings.scan(text)
    case Some(r) => Some(Real(r))
    case None => None
  }

  /** decodeNumber: the number of the token text, or nothing if it is not a number. */
  function DecodeNumber(settings: Settings, text: string): Option<Value>
    requires text != ""
  {
    if LooksDouble(text) then DecodeDouble(settings, text)
    else
      var negative := text[0] == '-';
      match Accumulate(text, if negative then 1 else 0, 0, MaxMagnitude(negative))
      case Whole(n) => Some(StoredInteger(negative, n))
      case AsDouble => DecodeDouble(settings, text)
      case NotDigits => None
  }

  /** The token readValue starts with: comments are skipped if they are allowed. */
  function FirstToken(settings: Settings, doc: string, pos: nat): (t: Token)
    requires pos <= |doc|
    ensures pos <= t.start <= t.end <= |doc|
    ensures t.kind != EndOfStream ==> t.start < t.end
    ensures t.kind == StringToken ==> t.start + 2 <= t.end
  {
    if settings.allowComments then SkipComments(doc, pos) else ReadToken(doc, pos)
  }

  function ErrorAt(token: Token, message: Message): ErrorInfo {
    ErrorInfo(token, message, None)
  }

  /** The reader gives up on a container: it keeps what it has read and skips to the closing token. */
  function GiveUp(doc: string, pos: nat, closing: TokenType, value: Value, error: ErrorInfo): (r: Outcome)
    requires pos <= |doc|
    ensures pos <= r.pos <= |doc|
  {
    Outcome(Recover(doc, pos, closing), value, Some(error))
  }

  /** readValue() at pos, on a node that holds the value before. */
  function ReadValue(settings: Settings, doc: string, pos: nat, before: Value): (r: Outcome)
    requires pos <= |doc|
    ensures pos <= r.pos <= |doc|
    ensures r.error.None? ==> pos < r.pos
    decreases |doc| - pos, 0
  {
    var token := FirstToken(settings, doc, pos);
    match token.kind
    case ObjectBegin => ReadMembers(settings, doc, token.end, map[], true)
    case ArrayBegin => ReadArray(settings, doc, token.end)
    case NumberToken =>
      (match DecodeNumber(settings, TokenText(doc, token))
       case Some(v) => Outcome(token.end, v, None)
       case None => Outcome(token.end, before, Some(ErrorAt(token, NotANumber(TokenText(doc, token))))))
    case StringToken =>
      (match DecodeString(doc, token)
       case Decoded(text, _) => Outcome(token.end, Str(CStr(text)), None)
       case Rejected(error) => Outcome(token.end, before, Some(error)))
    case TrueToken => Outcome(token.end, Bool(true), None)
    case FalseToken => Outcome(token.end, Bool(false), None)
    case NullToken => Outcome(token.end, Null, None)
    case _ => Outcome(token.end, before, Some(ErrorAt(token, ValueExpected)))
  }

  /** The member an object has under a name; a new member is null. */
  function MemberAt(members: map<CString, Value>, name: CString): Value {
    if name in members then members[name] else Null
  }

  /** The loop of readObject(), with the members read so far; closable says that the name read
      last is empty, in which case a closing brace is accepted in place of a name. */
  function ReadMembers(settings: Settings, doc: string, pos: nat, members: map<CString, Value>, closable: bool): (r: Outcome)
    requires pos <= |doc|
    ensures pos <= r.pos <= |doc|
    decreases |doc| - pos, 0
  {
    var token := SkipComments(doc, pos);
    if token.kind == ObjectEnd && closable then Outcome(token.end, Obj(members), None)
    else if token.kind != StringToken then
      GiveUp(doc, token.end, ObjectEnd, Obj(members), ErrorAt(token, MissingMemberName))
    else
      match DecodeString(doc, token)
      case Rejected(error) => GiveUp(doc, token.end, ObjectEnd, Obj(members), error)
      case Decoded(name, _) =>
        var colon := ReadToken(doc, token.end);
        if colon.kind != MemberSeparator then
          GiveUp(doc, colon.end, ObjectEnd, Obj(members), ErrorAt(colon, MissingColon))
        else ReadMemberValue(settings, doc, colon.end, members, name)
  }

  /** The rest of a turn of that loop, from behind the colon. */
  function ReadMemberValue(settings: Settings, doc: string, pos: nat, members: map<CString, Value>, name: string): (r: Outcome)
    requires pos <= |doc|
    ensures pos <= r.pos <= |doc|
    decreases |doc| - pos, 1
  {
    var key := CStr(name);
    var child := ReadValue(settings, doc, pos, MemberAt(members, key));
    var members' := members[key := child.value];
    if child.error.Some? then GiveUp(doc, child.pos, ObjectEnd, Obj(members'), child.error.value)
    else
      var comma := ReadToken(doc, child.pos);
      if comma.kind != ObjectEnd && comma.kind != ArraySeparator && comma.kind != CommentToken then
        GiveUp(doc, comma.end, ObjectEnd, Obj(members'), ErrorAt(comma, MissingCommaInObject))
      else
        var next := SkipComments(doc, child.pos);
        if next.kind == ObjectEnd then Outcome(next.end, Obj(members'), None)
        else ReadMembers(settings, doc, next.end, members', name == "")
  }

  /** readArray() from behind the opening bracket. */
  function ReadArray(settings: Settings, doc: string, pos: nat): (r: Outcome)
    requires pos <= |doc|
    ensures pos <= r.pos <= |doc|
    decreases |doc| - pos, 2
  {
    var start := SkipSpaces(doc, pos);
    if Peek(doc, start) == ']' then Outcome(start + 1, Arr(map[]), None)
    else ReadElements(settings, doc, start, map[], 0)
  }

  /** The loop of readArray(), with the elements read so far. */
  function ReadElements(settings: Settings, doc: string, pos: nat, items: map<nat, Value>, index: nat): (r: Outcome)
    requires pos <= |doc|
    ensures pos <= r.pos <= |doc|
    decreases |doc| - pos, 1
  {
    var child := ReadValue(settings, doc, pos, ElementAt(items, index));
    var items' := items[index := child.value];
    if child.error.Some? then GiveUp(doc, child.pos, ArrayEnd, Arr(items'), child.error.value)
    else
      var next := SkipComments(doc, child.pos);
      if next.kind == ArrayEnd then Outcome(next.end, Arr(items'), None)
      else if next.kind == ArraySeparator then ReadElements(settings, doc, next.end, items', index + 1)
      else GiveUp(doc, next.end, ArrayEnd, Arr(items'), ErrorAt(next, MissingCommaInArray))
  }

  /** isArray() || isObject(), both of which hold of null. */
  predicate IsRoot(v: Value) {
    v.Null? || v.Arr? || v.Obj?
  }

  /** What parse() returns, and what it leaves in the root and in the list of errors. */
  datatype Parsed = Parsed(ok: bool, root: Value, errors: seq<ErrorInfo>)

  /** parse() of a document into a root that holds the value before. */
  function Parse(settings: Settings, doc: string, before: Value): (r: Parsed)
    ensures r.ok <==> r.errors == []
    ensures !settings.strictRoot && !r.ok ==> |r.errors| == 1
    ensures settings.strictRoot && !IsRoot(r.root) ==> !r.ok && r.errors[|r.errors| - 1].message == RootNotAContainer
    ensures |r.errors| <= if settings.strictRoot && !IsRoot(r.root) then 2 else 1
  {
    var r := ReadValue(settings, doc, 0, before);
    var found := if r.error.Some? then [r.error.value] else [];
    if settings.strictRoot && !IsRoot(r.value)
    then Parsed(false, r.value, found + [ErrorAt(Token(ErrorToken, 0, |doc|), RootNotAContainer)])
    else Parsed(r.error.None?, r.value, found)
  }
}
