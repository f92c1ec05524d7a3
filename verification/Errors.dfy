// Which error parse() reports, and what it leaves in the root: the error of the innermost value that cannot be
// read, at the token where reading stops, and everything that was read before it.
module Errors {
  import opened Text
  import opened Values
  import opened Numbers
  import opened Scanner
  import opened Comments
  import opened Strings
  import opened Parser
  import opened Grammar
  import opened Completeness

  // ---------- what has been read of a container ----------

  /** Elements, each with the comma behind it. */
  ghost function ElemsSoFar(elems: seq<Elem>): string {
    if elems == [] then ""
    else elems[0].before + (JsonText(elems[0].value) + (elems[0].after + ("," + ElemsSoFar(elems[1..]))))
  }

  /** Members, each with the comma behind it. */
  ghost function MembersSoFar(members: seq<Member>): string {
    if members == [] then ""
    else
      CommaMember(members[0], MembersSoFar(members[1..]))
  }

  /** A member, the comma behind it, and the rest. */
  ghost function CommaMember(m: Member, rest: string): string {
    m.before + (StringText(m.name) + (m.afterName + (":" + (m.beforeValue + (JsonText(m.value) + (m.after + ("," + rest)))))))
  }

  /** The name and the colon in front of a value. */
  ghost function NameText(m: Member): string {
    m.before + (StringText(m.name) + (m.afterName + ":"))
  }

  /** All of them can be read. */
  ghost predicate Read(settings: Settings, members: seq<Member>) {
    forall k :: 0 <= k < |members| ==> CanBeRead(settings, members[k])
  }

  ghost predicate CanBeRead(settings: Settings, m: Member) {
    && Filler(true, m.before) && AllSpaces(m.afterName)
    && Filler(settings.allowComments, m.beforeValue) && Filler(true, m.after)
    && LooseItems(m.name) && Loose(settings, m.value)
  }

  /** Behind elements the loop of readArray() stands at the next one. */
  lemma {:induction false} ElemsAreRead(settings: Settings, doc: string, pos: nat, end: nat, elems: seq<Elem>,
                                        items: map<nat, Value>, index: nat)
    requires LooseElems(settings, elems) && At(doc, pos, end, ElemsSoFar(elems))
    ensures pos <= end <= |doc|
    ensures ReadElements(settings, doc, pos, items, index)
         == ReadElements(settings, doc, end, AddElems(settings, elems, items, index), index + |elems|)
    decreases |elems|
  {
    hide At, JsonText, ElemsSoFar, ReadElements, LooseElems, Loose, Denote, Filler, AddElems;
    AtBound(doc, pos, end, ElemsSoFar(elems));
    FirstSoFar(settings, elems);
    FirstElemAdded(settings, elems, items, index);
    if elems == [] {
      Here(doc, pos, end);
    } else {
      var next := ElementAndComma(settings, doc, pos, end, elems[0], ElemsSoFar(elems[1..]), items, index);
      ElemsAreRead(settings, doc, next, end, elems[1..], items[index := Denote(settings, elems[0].value)], index + 1);
    }
  }

  /** One turn of the loop of readArray(). */
  lemma ElementAndComma(settings: Settings, doc: string, pos: nat, end: nat, e: Elem, rest: string,
                        items: map<nat, Value>, index: nat) returns (next: nat)
    requires Filler(settings.allowComments, e.before) && Filler(true, e.after) && Loose(settings, e.value)
    requires At(doc, pos, end, e.before + (JsonText(e.value) + (e.after + ("," + rest))))
    ensures pos <= |doc| && next <= end <= |doc| && At(doc, next, end, rest)
    ensures ReadElements(settings, doc, pos, items, index)
         == ReadElements(settings, doc, next, items[index := Denote(settings, e.value)], index + 1)
  {
    hide At, JsonText, ReadValue, ReadElements, Loose, Denote, SkipComments, Filler;
    var m1 := AtSplit(doc, pos, end, e.before, JsonText(e.value) + (e.after + ("," + rest)));
    var m2 := AtSplit(doc, m1, end, JsonText(e.value), e.after + ("," + rest));
    var m3 := AtSplit(doc, m2, end, e.after, "," + rest);
    CommaBehind(doc, m2, m3, end, e.after, rest);
    ReadsTree(settings, doc, pos, m1, m2, e.before, e.value, ElementAt(items, index));
    var child := ReadValue(settings, doc, pos, ElementAt(items, index));
    var comma := SkipComments(doc, m2);
    ElementsStep(settings, doc, pos, items, index, child, comma);
    next := comma.end;
    AtBound(doc, next, end, rest);
  }

  lemma FirstSoFar(settings: Settings, elems: seq<Elem>)
    requires LooseElems(settings, elems)
    ensures elems == [] ==> ElemsSoFar(elems) == ""
    ensures elems != [] ==>
              var e := elems[0];
              && ElemsSoFar(elems) == e.before + (JsonText(e.value) + (e.after + ("," + ElemsSoFar(elems[1..]))))
              && Filler(settings.allowComments, e.before) && Filler(true, e.after)
              && Loose(settings, e.value) && LooseElems(settings, elems[1..])
  {
  }

  lemma FirstElemAdded(settings: Settings, elems: seq<Elem>, items: map<nat, Value>, index: nat)
    ensures AddElems(settings, elems, items, index)
         == if elems == [] then items
            else AddElems(settings, elems[1..], items[index := Denote(settings, elems[0].value)], index + 1)
  {
    hide Denote;
  }

  lemma FirstMemberAdded(settings: Settings, members: seq<Member>, known: map<CString, Value>)
    ensures AddMembers(settings, members, known)
         == if members == [] then known
            else AddMembers(settings, members[1..], known[NameOf(members[0]) := Denote(settings, members[0].value)])
  {
    hide Denote, NameOf;
  }

  lemma Here(doc: string, pos: nat, end: nat)
    requires At(doc, pos, end, "")
    ensures pos == end
  {
  }

  /** A closing brace may stand behind these members and their commas: behind one with an empty name. */
  ghost predicate Closable(members: seq<Member>, closable: bool) {
    if members == [] then closable else ItemsBytes(members[|members| - 1].name) == ""
  }

  /** Behind members the loop of readObject() stands at the next one. */
  lemma {:induction false} MembersAreRead(settings: Settings, doc: string, pos: nat, end: nat, members: seq<Member>,
                                          known: map<CString, Value>, closable: bool)
    requires Read(settings, members) && At(doc, pos, end, MembersSoFar(members))
    ensures pos <= end <= |doc|
    ensures ReadMembers(settings, doc, pos, known, closable)
         == ReadMembers(settings, doc, end, AddMembers(settings, members, known), Closable(members, closable))
    decreases |members|
  {
    hide At, CommaMember, MembersSoFar, ReadMembers, Denote, ItemsBytes, CanBeRead, Read, NameOf, AddMembers;
    AtBound(doc, pos, end, MembersSoFar(members));
    FirstMemberSoFar(settings, members);
    FirstMemberAdded(settings, members, known);
    if members == [] {
      Here(doc, pos, end);
    } else {
      var m, rest := members[0], members[1..];
      var next := MemberAndComma(settings, doc, pos, end, m, MembersSoFar(rest), known, closable);
      MembersAreRead(settings, doc, next, end, rest, known[NameOf(m) := Denote(settings, m.value)], ItemsBytes(m.name) == "");
      assert rest != [] ==> rest[|rest| - 1] == members[|members| - 1];
    }
  }

  lemma FirstMemberSoFar(settings: Settings, members: seq<Member>)
    requires Read(settings, members)
    ensures members == [] ==> MembersSoFar(members) == ""
    ensures members != [] ==>
              && MembersSoFar(members) == CommaMember(members[0], MembersSoFar(members[1..]))
              && CanBeRead(settings, members[0]) && Read(settings, members[1..])
  {
  }

  /** One turn of the loop of readObject(). */
  lemma MemberAndComma(settings: Settings, doc: string, pos: nat, end: nat, m: Member, rest: string,
                       known: map<CString, Value>, closable: bool) returns (next: nat)
    requires CanBeRead(settings, m) && At(doc, pos, end, CommaMember(m, rest))
    ensures pos <= |doc| && next <= end <= |doc| && At(doc, next, end, rest)
    ensures ReadMembers(settings, doc, pos, known, closable)
         == ReadMembers(settings, doc, next, known[NameOf(m) := Denote(settings, m.value)], ItemsBytes(m.name) == "")
  {
    hide At, JsonText, ReadValue, ReadMembers, Loose, Denote, SkipComments, Filler, AllSpaces, LooseItems, StringText,
         ItemsBytes, NameOf;
    var s5 := JsonText(m.value) + (m.after + ("," + rest));
    var s3 := m.afterName + (":" + (m.beforeValue + s5));
    var i1 := AtSplit(doc, pos, end, m.before, StringText(m.name) + s3);
    var i2 := AtSplit(doc, i1, end, StringText(m.name), s3);
    var i3 := AtSplit(doc, i2, end, m.afterName, ":" + (m.beforeValue + s5));
    var i4 := AtSplit(doc, i3, end, ":", m.beforeValue + s5);
    var i5 := AtSplit(doc, i4, end, m.beforeValue, s5);
    var i6 := AtSplit(doc, i5, end, JsonText(m.value), m.after + ("," + rest));
    var i7 := AtSplit(doc, i6, end, m.after, "," + rest);
    CommaBehind(doc, i6, i7, end, m.after, rest);
    ReadsTree(settings, doc, i4, i5, i6, m.beforeValue, m.value, MemberAt(known, NameOf(m)));
    ReadsMember(settings, doc, pos, i1, i2, i3, i4, i6, m, known, closable);
    next := SkipComments(doc, i6).end;
    AtBound(doc, next, end, rest);
  }

  // ---------- where reading stops ----------

  /** Reading ends with that error, and the node holds the value. */
  ghost predicate Fails(r: Outcome, value: Value, token: Token, message: Message) {
    r.error == Some(ErrorInfo(token, message, None)) && r.value == value
  }

  /** Nothing that can start a value: the error is there. */
  lemma NoValue(settings: Settings, doc: string, pos: nat, i: nat, lead: string, before: Value)
    requires At(doc, pos, i, lead) && Filler(settings.allowComments, lead)
    requires ReadToken(doc, i).kind in {EndOfStream, ObjectEnd, ArrayEnd, ArraySeparator, MemberSeparator, ErrorToken}
    ensures pos <= |doc|
    ensures Fails(ReadValue(settings, doc, pos, before), before, ReadToken(doc, i), ValueExpected)
  {
    AtBound(doc, pos, i, lead);
    hide At, ReadToken, Filler;
    FirstTokenBehind(settings, doc, pos, i, lead);
  }

  /** A number text that is no number. */
  lemma NoNumber(settings: Settings, doc: string, pos: nat, i: nat, lead: string, before: Value)
    requires At(doc, pos, i, lead) && Filler(settings.allowComments, lead)
    requires ReadToken(doc, i).kind == NumberToken && DecodeNumber(settings, TokenText(doc, ReadToken(doc, i))).None?
    ensures pos <= |doc|
    ensures var t := ReadToken(doc, i);
            Fails(ReadValue(settings, doc, pos, before), before, t, NotANumber(doc[t.start..t.end]))
  {
    AtBound(doc, pos, i, lead);
    hide At, ReadToken, Filler, DecodeNumber;
    FirstTokenBehind(settings, doc, pos, i, lead);
  }

  /** Behind an element neither a comma nor the bracket. */
  lemma NoCommaInArray(settings: Settings, doc: string, pos: nat, p: nat, i1: nat, i2: nat, i3: nat, done: seq<Elem>, e: Elem)
    requires LooseElems(settings, done) && At(doc, pos, p, ElemsSoFar(done))
    requires Filler(settings.allowComments, e.before) && Filler(true, e.after) && Loose(settings, e.value)
    requires At(doc, p, i1, e.before) && At(doc, i1, i2, JsonText(e.value)) && At(doc, i2, i3, e.after) && Ends(doc, i2, e.value)
    requires ReadToken(doc, i3).kind !in {ArrayEnd, ArraySeparator, CommentToken}
    ensures pos <= |doc|
    ensures Fails(ReadElements(settings, doc, pos, map[], 0), Arr(AddElems(settings, done, map[], 0)[|done| := Denote(settings, e.value)]),
                  ReadToken(doc, i3), MissingCommaInArray)
  {
    hide At, ReadToken, Filler, JsonText, Loose, Denote, ReadValue, ReadElements, Recover, ElemsSoFar, LooseElems, AddElems, Ends, Fails;
    var items := AddElems(settings, done, map[], 0);
    AtBound(doc, pos, p, ElemsSoFar(done));
    AtBound(doc, i2, i3, e.after);
    ElemsAreRead(settings, doc, pos, p, done, map[], 0);
    ReadsTree(settings, doc, p, i1, i2, e.before, e.value, ElementAt(items, |done|));
    FillerIsSkipped(doc, i2, i3, e.after);
    NoCommaBehindElement(settings, doc, p, i2, ReadToken(doc, i3), items, |done|, Denote(settings, e.value));
  }

  lemma NoCommaBehindElement(settings: Settings, doc: string, pos: nat, i2: nat, token: Token, items: map<nat, Value>, index: nat, v: Value)
    requires pos <= |doc| && i2 <= |doc| && ReadValue(settings, doc, pos, ElementAt(items, index)) == Outcome(i2, v, None)
    requires SkipComments(doc, i2) == token && token.kind !in {ArrayEnd, ArraySeparator}
    ensures Fails(ReadElements(settings, doc, pos, items, index), Arr(items[index := v]), token, MissingCommaInArray)
  {
    hide ReadToken, SkipComments, ReadValue, Recover;
  }

  /** Behind a name no colon. */
  lemma NoColon(settings: Settings, doc: string, pos: nat, p: nat, i1: nat, i2: nat, i3: nat, done: seq<Member>,
                before: string, name: seq<Item>, after: string)
    requires Read(settings, done) && At(doc, pos, p, MembersSoFar(done))
    requires Filler(true, before) && LooseItems(name) && AllSpaces(after)
    requires At(doc, p, i1, before) && At(doc, i1, i2, StringText(name)) && At(doc, i2, i3, after)
    requires ReadToken(doc, i3).kind != MemberSeparator
    ensures pos <= |doc|
    ensures Fails(ReadMembers(settings, doc, pos, map[], true), Obj(AddMembers(settings, done, map[])), ReadToken(doc, i3), MissingColon)
  {
    AtBound(doc, pos, p, MembersSoFar(done));
    AtBound(doc, i2, i3, after);
    MembersAreRead(settings, doc, pos, p, done, map[], true);
    hide At, ReadToken, Filler, StringText, LooseItems, DecodeString, Recover, MembersSoFar, Read, AddMembers, Closable;
    StringIsReadBack(doc, i1, i2, name);
    FillerIsSkipped(doc, p, i1, before);
    ReadTokenAfterSpaces(doc, i2, i3, after);
  }

  /** Neither a name nor, where it may stand, the closing brace. */
  lemma NoName(settings: Settings, doc: string, pos: nat, p: nat, i: nat, done: seq<Member>, before: string)
    requires Read(settings, done) && At(doc, pos, p, MembersSoFar(done))
    requires Filler(true, before) && At(doc, p, i, before)
    requires ReadToken(doc, i).kind !in {StringToken, CommentToken}
    requires ReadToken(doc, i).kind == ObjectEnd ==> done != [] && ItemsBytes(done[|done| - 1].name) != ""
    ensures pos <= |doc|
    ensures Fails(ReadMembers(settings, doc, pos, map[], true), Obj(AddMembers(settings, done, map[])), ReadToken(doc, i), MissingMemberName)
  {
    AtBound(doc, pos, p, MembersSoFar(done));
    AtBound(doc, p, i, before);
    MembersAreRead(settings, doc, pos, p, done, map[], true);
    hide At, ReadToken, Filler, Recover, MembersSoFar, Read, ItemsBytes, AddMembers;
    FillerIsSkipped(doc, p, i, before);
  }

  /** Behind a member neither a comma nor the brace. */
  lemma NoCommaInObject(settings: Settings, doc: string, pos: nat, p: nat, i1: nat, i2: nat, i3: nat, i4: nat, i5: nat, i6: nat,
                        i7: nat, done: seq<Member>, m: Member)
    requires Read(settings, done) && At(doc, pos, p, MembersSoFar(done)) && CanBeRead(settings, m) && AllSpaces(m.after)
    requires At(doc, p, i1, m.before) && At(doc, i1, i2, StringText(m.name)) && At(doc, i2, i3, m.afterName)
    requires At(doc, i3, i4, ":") && At(doc, i4, i5, m.beforeValue) && At(doc, i5, i6, JsonText(m.value))
    requires At(doc, i6, i7, m.after) && Ends(doc, i6, m.value)
    requires ReadToken(doc, i7).kind !in {ObjectEnd, ArraySeparator, CommentToken}
    ensures pos <= |doc|
    ensures Fails(ReadMembers(settings, doc, pos, map[], true),
                  Obj(AddMembers(settings, done, map[])[NameOf(m) := Denote(settings, m.value)]), ReadToken(doc, i7), MissingCommaInObject)
  {
    hide At, ReadToken, Filler, StringText, LooseItems, JsonText, Loose, Denote, DecodeString, Recover, MembersSoFar, ReadValue,
         ReadMembers, ItemsBytes, AllSpaces, NameOf, Read, Ends, SkipComments, AddMembers, Closable;
    var known := AddMembers(settings, done, map[]);
    AtBound(doc, pos, p, MembersSoFar(done));
    AtBound(doc, i6, i7, m.after);
    AtBound(doc, i4, i5, m.beforeValue);
    MembersAreRead(settings, doc, pos, p, done, map[], true);
    NameAndColon(doc, p, i1, i2, i3, i4, m.before, m.name, m.afterName);
    ReadsTree(settings, doc, i4, i5, i6, m.beforeValue, m.value, MemberAt(known, NameOf(m)));
    ReadTokenAfterSpaces(doc, i6, i7, m.after);
    NoCommaBehindMember(settings, doc, p, i4, i6, known, Closable(done, true), m);
  }

  lemma NoCommaBehindMember(settings: Settings, doc: string, pos: nat, i4: nat, i6: nat, known: map<CString, Value>, closable: bool, m: Member)
    requires pos <= |doc| && i4 <= |doc| && i6 <= |doc|
    requires var token := SkipComments(doc, pos);
             && token.kind == StringToken && DecodeString(doc, token) == Decoded(ItemsBytes(m.name), false)
             && ReadToken(doc, token.end).kind == MemberSeparator && ReadToken(doc, token.end).end == i4
    requires ReadValue(settings, doc, i4, MemberAt(known, NameOf(m))) == Outcome(i6, Denote(settings, m.value), None)
    requires ReadToken(doc, i6).kind !in {ObjectEnd, ArraySeparator, CommentToken}
    ensures Fails(ReadMembers(settings, doc, pos, known, closable), Obj(known[NameOf(m) := Denote(settings, m.value)]),
                  ReadToken(doc, i6), MissingCommaInObject)
  {
    hide SkipSpaces, ReadToken, DecodeString, ReadValue, Recover, CStr, ItemsBytes, Denote;
  }

  // ---------- the way out ----------

  /** A container that is open around the value being read: what it holds so far, and the name the value is for. */
  datatype Frame = InArray(lead: string, elems: seq<Elem>) | InObject(lead: string, members: seq<Member>, member: Member)

  ghost function FrameText(f: Frame): string {
    match f
    case InArray(lead, elems) => lead + ("[" + ElemsSoFar(elems))
    case InObject(lead, members, member) => lead + ("{" + (MembersSoFar(members) + NameText(member)))
  }

  ghost predicate Stands(settings: Settings, f: Frame) {
    Filler(settings.allowComments, f.lead) &&
    match f
    case InArray(_, elems) => LooseElems(settings, elems)
    case InObject(_, members, m) =>
      Read(settings, members) && Filler(true, m.before) && LooseItems(m.name) && AllSpaces(m.afterName)
  }

  /** What the node of the value in the container holds before the value is read. */
  ghost function Held(settings: Settings, f: Frame): Value {
    match f
    case InArray(_, _) => Null
    case InObject(_, members, m) => MemberAt(AddMembers(settings, members, map[]), NameOf(m))
  }

  /** The container with that value in its place. */
  ghost function Around(settings: Settings, f: Frame, v: Value): Value {
    match f
    case InArray(_, elems) => Arr(AddElems(settings, elems, map[], 0)[|elems| := v])
    case InObject(_, members, m) => Obj(AddMembers(settings, members, map[])[NameOf(m) := v])
  }

  /** Reading the container fails as reading the value in it does, and keeps what was read. */
  ghost predicate FailsAround(settings: Settings, f: Frame, outer: Outcome, inner: Outcome) {
    outer.error == inner.error && outer.value == Around(settings, f, inner.value)
  }

  /** Whether a value can be read does not depend on what the node held before. */
  lemma ErrorIsOfTheText(settings: Settings, doc: string, pos: nat, a: Value, b: Value)
    requires pos <= |doc|
    ensures ReadValue(settings, doc, pos, a).error == ReadValue(settings, doc, pos, b).error
  {
    hide FirstToken, ReadMembers, ReadArray, DecodeString, DecodeNumber;
  }

  /** The error of a value in an array is the error of the array. */
  lemma PassesArray(settings: Settings, doc: string, pos: nat, end: nat, f: Frame, before: Value)
    requires f.InArray? && Stands(settings, f) && At(doc, pos, end, FrameText(f)) && end <= |doc|
    requires ReadValue(settings, doc, end, Held(settings, f)).error.Some?
    requires f.elems == [] ==> Peek(doc, SkipSpaces(doc, end)) != ']'
    ensures pos <= |doc|
    ensures FailsAround(settings, f, ReadValue(settings, doc, pos, before), ReadValue(settings, doc, end, Held(settings, f)))
  {
    AtBound(doc, pos, end, FrameText(f));
    var start := AtSplit(doc, pos, end, f.lead, "[" + ElemsSoFar(f.elems));
    var next := AtSplit(doc, start, end, "[", ElemsSoFar(f.elems));
    AtBound(doc, start, next, "[");
    NoBracketYet(settings, doc, next, end, f.elems);
    hide At, ReadToken, Filler, ElemsSoFar, LooseElems, ReadValue, ReadElements, AddElems, Denote;
    ReadStructural(doc, start, next, '[');
    FirstTokenBehind(settings, doc, pos, start, f.lead);
    OpensArray(settings, doc, pos, before);
    ElementsAfterSpaces(settings, doc, next);
    ElemsAreRead(settings, doc, next, end, f.elems, map[], 0);
    ArrayDenotesSequence(settings, f.elems, map[], 0);
    FailingElement(settings, doc, end, AddElems(settings, f.elems, map[], 0), |f.elems|);
  }

  lemma OpensArray(settings: Settings, doc: string, pos: nat, before: Value)
    requires pos <= |doc| && FirstToken(settings, doc, pos).kind == ArrayBegin
    ensures ReadValue(settings, doc, pos, before) == ReadArray(settings, doc, FirstToken(settings, doc, pos).end)
  {
    hide ReadArray, FirstToken;
  }

  lemma OpensObject(settings: Settings, doc: string, pos: nat, before: Value)
    requires pos <= |doc| && FirstToken(settings, doc, pos).kind == ObjectBegin
    ensures ReadValue(settings, doc, pos, before) == ReadMembers(settings, doc, FirstToken(settings, doc, pos).end, map[], true)
  {
    hide ReadMembers, FirstToken;
  }

  lemma FailingElement(settings: Settings, doc: string, pos: nat, items: map<nat, Value>, index: nat)
    requires pos <= |doc| && ReadValue(settings, doc, pos, ElementAt(items, index)).error.Some?
    ensures var r, child := ReadElements(settings, doc, pos, items, index), ReadValue(settings, doc, pos, ElementAt(items, index));
            r.error == child.error && r.value == Arr(items[index := child.value])
  {
    hide ReadValue, Recover;
  }

  lemma NoBracketYet(settings: Settings, doc: string, pos: nat, end: nat, elems: seq<Elem>)
    requires LooseElems(settings, elems) && At(doc, pos, end, ElemsSoFar(elems)) && end <= |doc|
    requires elems == [] ==> Peek(doc, SkipSpaces(doc, end)) != ']'
    ensures pos <= |doc| && Peek(doc, SkipSpaces(doc, pos)) != ']'
  {
    AtBound(doc, pos, end, ElemsSoFar(elems));
    if elems != [] {
      var e, rest := elems[0], ElemsSoFar(elems[1..]);
      FirstByte(settings, e.value);
      FirstSoFar(settings, elems);
      hide At, JsonText, Filler, ElemsSoFar, Loose;
      var m := AtSplit(doc, pos, end, e.before, JsonText(e.value) + (e.after + ("," + rest)));
      var n := AtSplit(doc, m, end, JsonText(e.value), e.after + ("," + rest));
      AtFirst(doc, m, n, JsonText(e.value));
      assert SkipSpaces(doc, m) == m;
      FillerShows(doc, pos, m, settings.allowComments, e.before);
    }
  }

  /** The error of a value in an object is the error of the object. */
  lemma PassesObject(settings: Settings, doc: string, pos: nat, end: nat, f: Frame, before: Value)
    requires f.InObject? && Stands(settings, f) && At(doc, pos, end, FrameText(f)) && end <= |doc|
    requires ReadValue(settings, doc, end, Held(settings, f)).error.Some?
    ensures pos <= |doc|
    ensures FailsAround(settings, f, ReadValue(settings, doc, pos, before), ReadValue(settings, doc, end, Held(settings, f)))
  {
    var m := f.member;
    AtBound(doc, pos, end, FrameText(f));
    hide At, ReadToken, Filler, AllSpaces, MembersSoFar, Read, ReadValue, ReadMembers, StringText, LooseItems, DecodeString,
         ItemsBytes, CStr, SkipComments, AddMembers, Closable;
    var start := AtSplit(doc, pos, end, f.lead, "{" + (MembersSoFar(f.members) + NameText(m)));
    var next := AtSplit(doc, start, end, "{", MembersSoFar(f.members) + NameText(m));
    AtBound(doc, start, next, "{");
    ReadStructural(doc, start, next, '{');
    FirstTokenBehind(settings, doc, pos, start, f.lead);
    OpensObject(settings, doc, pos, before);
    var p := AtSplit(doc, next, end, MembersSoFar(f.members), NameText(m));
    MembersAreRead(settings, doc, next, p, f.members, map[], true);
    var i1 := AtSplit(doc, p, end, m.before, StringText(m.name) + (m.afterName + ":"));
    var i2 := AtSplit(doc, i1, end, StringText(m.name), m.afterName + ":");
    var i3 := AtSplit(doc, i2, end, m.afterName, ":");
    NameAndColon(doc, p, i1, i2, i3, end, m.before, m.name, m.afterName);
    FailingMember(settings, doc, p, end, AddMembers(settings, f.members, map[]), Closable(f.members, true), ItemsBytes(m.name));
  }

  lemma FailingMember(settings: Settings, doc: string, pos: nat, end: nat, known: map<CString, Value>, closable: bool, name: string)
    requires pos <= |doc| && end <= |doc|
    requires var token := SkipComments(doc, pos);
             && token.kind == StringToken && DecodeString(doc, token) == Decoded(name, false)
             && ReadToken(doc, token.end).kind == MemberSeparator && ReadToken(doc, token.end).end == end
    requires ReadValue(settings, doc, end, MemberAt(known, CStr(name))).error.Some?
    ensures var r, child := ReadMembers(settings, doc, pos, known, closable), ReadValue(settings, doc, end, MemberAt(known, CStr(name)));
            r.error == child.error && r.value == Obj(known[CStr(name) := child.value])
  {
    hide SkipComments, DecodeString, ReadToken, ReadValue, Recover, CStr;
  }

  // ---------- the error that is reported ----------

  ghost function PathText(path: seq<Frame>): string {
    if path == [] then "" else FrameText(path[0]) + PathText(path[1..])
  }

  /** What the node of the value behind the path holds before that value is read. */
  ghost function HeldBehind(settings: Settings, path: seq<Frame>, before: Value): Value {
    if path == [] then before else HeldBehind(settings, path[1..], Held(settings, path[0]))
  }

  /** The root with that value behind the path. */
  ghost function AroundAll(settings: Settings, path: seq<Frame>, v: Value): Value {
    if path == [] then v else Around(settings, path[0], AroundAll(settings, path[1..], v))
  }

  /** The value behind the path is not simply the bracket that closes an empty array. */
  ghost predicate NotClosing(doc: string, end: nat, path: seq<Frame>)
    requires end <= |doc|
  {
    path != [] && path[|path| - 1].InArray? && path[|path| - 1].elems == [] ==> Peek(doc, SkipSpaces(doc, end)) != ']'
  }

  ghost predicate AllStand(settings: Settings, path: seq<Frame>) {
    forall k :: 0 <= k < |path| ==> Stands(settings, path[k])
  }

  lemma {:induction false} ErrorPasses(settings: Settings, doc: string, pos: nat, end: nat, path: seq<Frame>, before: Value)
    requires AllStand(settings, path) && At(doc, pos, end, PathText(path)) && end <= |doc| && NotClosing(doc, end, path)
    requires ReadValue(settings, doc, end, HeldBehind(settings, path, before)).error.Some?
    ensures pos <= |doc|
    ensures var r, inner := ReadValue(settings, doc, pos, before), ReadValue(settings, doc, end, HeldBehind(settings, path, before));
            r.error == inner.error && r.value == AroundAll(settings, path, inner.value)
    decreases |path|
  {
    hide ReadValue, PathText, FrameText, At, Stands, SkipSpaces, AllStand, NotClosing, Peek, Held, Around;
    AtBound(doc, pos, end, PathText(path));
    FirstFrame(settings, doc, end, path);
    if path == [] {
      Here(doc, pos, end);
    } else {
      var f, rest := path[0], path[1..];
      var m := AtSplit(doc, pos, end, FrameText(f), PathText(rest));
      ErrorPasses(settings, doc, m, end, rest, Held(settings, f));
      AtBound(doc, m, end, PathText(rest));
      if f.InObject? {
        PassesObject(settings, doc, pos, m, f, before);
      } else {
        if rest != [] {
          FrameShows(settings, doc, m, end, rest);
        } else {
          Here(doc, m, end);
        }
        PassesArray(settings, doc, pos, m, f, before);
      }
    }
  }

  lemma FirstFrame(settings: Settings, doc: string, end: nat, path: seq<Frame>)
    requires AllStand(settings, path) && end <= |doc| && NotClosing(doc, end, path)
    ensures path == [] ==> PathText(path) == ""
    ensures path != [] ==>
              && PathText(path) == FrameText(path[0]) + PathText(path[1..])
              && Stands(settings, path[0]) && AllStand(settings, path[1..]) && NotClosing(doc, end, path[1..])
    ensures |path| == 1 ==> PathText(path[1..]) == ""
    ensures |path| == 1 && path[0].InArray? && path[0].elems == [] ==> Peek(doc, SkipSpaces(doc, end)) != ']'
  {
    hide Stands, FrameText, SkipSpaces, Peek, AllStand, NotClosing;
    if path != [] {
      RestStands(settings, path);
      RestNotClosing(doc, end, path);
    }
  }

  lemma RestStands(settings: Settings, path: seq<Frame>)
    requires AllStand(settings, path) && path != []
    ensures Stands(settings, path[0]) && AllStand(settings, path[1..])
  {
    hide Stands;
  }

  lemma RestNotClosing(doc: string, end: nat, path: seq<Frame>)
    requires path != [] && end <= |doc| && NotClosing(doc, end, path)
    ensures NotClosing(doc, end, path[1..])
    ensures |path| == 1 && path[0].InArray? && path[0].elems == [] ==> Peek(doc, SkipSpaces(doc, end)) != ']'
  {
    hide SkipSpaces, Peek;
    assert |path| > 1 ==> path[1..][|path| - 2] == path[|path| - 1];
  }

  /** A container does not start with a closing bracket. */
  lemma FrameShows(settings: Settings, doc: string, pos: nat, end: nat, path: seq<Frame>)
    requires path != [] && AllStand(settings, path) && At(doc, pos, end, PathText(path)) && end <= |doc|
    ensures pos <= |doc| && Peek(doc, SkipSpaces(doc, pos)) != ']'
  {
    AtBound(doc, pos, end, PathText(path));
    var f := path[0];
    assert Stands(settings, f);
    var open := if f.InArray? then "[" else "{";
    var inner := if f.InArray? then ElemsSoFar(f.elems) else MembersSoFar(f.members) + NameText(f.member);
    assert FrameText(f) == f.lead + (open + inner);
    hide At, Filler, ElemsSoFar, MembersSoFar, NameText, FrameText;
    var m := AtSplit(doc, pos, end, FrameText(f), PathText(path[1..]));
    var i := AtSplit(doc, pos, m, f.lead, open + inner);
    var j := AtSplit(doc, i, m, open, inner);
    AtFirst(doc, i, j, open);
    assert SkipSpaces(doc, i) == i;
    FillerShows(doc, pos, i, settings.allowComments, f.lead);
  }

  /** parse() reports the error of the value that stands behind any readable beginning of a document, and no other;
      in strict mode it may add that the root is no container. The root holds what was read. */
  lemma ErrorIsReported(settings: Settings, doc: string, end: nat, path: seq<Frame>, before: Value)
    requires AllStand(settings, path) && At(doc, 0, end, PathText(path)) && end <= |doc| && NotClosing(doc, end, path)
    requires ReadValue(settings, doc, end, Null).error.Some?
    ensures var r := Parse(settings, doc, before);
            && !r.ok && r.errors[0] == ReadValue(settings, doc, end, Null).error.value
            && (!settings.strictRoot || IsRoot(r.root) ==> r.errors == [ReadValue(settings, doc, end, Null).error.value])
            && r.root == AroundAll(settings, path, ReadValue(settings, doc, end, HeldBehind(settings, path, before)).value)
  {
    hide ReadValue, PathText, At, HeldBehind, AroundAll, AllStand, NotClosing;
    ErrorIsOfTheText(settings, doc, end, Null, HeldBehind(settings, path, before));
    ErrorPasses(settings, doc, 0, end, path, before);
  }
}
