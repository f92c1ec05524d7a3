// The reader accepts every text of the grammar and yields the value the text denotes.
module Completeness {
  import opened Text
  import opened Values
  import opened Numbers
  import opened Scanner
  import opened Comments
  import opened Strings
  import opened Parser
  import opened Grammar

  // ---------- numbers ----------

  /** Skipping the minus sign. */
  lemma {:induction false} AccumulateBehindSign(sign: char, digits: string, i: nat, value: UInt64, max: nat)
    requires i <= |digits|
    ensures Accumulate([sign] + digits, i + 1, value, max) == Accumulate(digits, i, value, max)
    decreases |digits| - i
  {
    if i < |digits| && IsDigit(digits[i]) {
      AccumulateBehindSign(sign, digits, i + 1, WrapU64(value * 10 + DigitValue(digits[i])), max);
    }
  }

  lemma NumberIsDecoded(settings: Settings, n: Number)
    requires LooseNumber(settings, n)
    ensures NumberText(n) != ""
    ensures DecodeNumber(settings, NumberText(n)) == Some(DenoteNumber(settings, n))
  {
    var s := NumberText(n);
    if IsIntegerText(n) {
      IntegerIsDecoded(settings, n);
    } else {
      assert DecodeNumber(settings, s) == DecodeDouble(settings, s);
    }
  }

  lemma IntegerIsDecoded(settings: Settings, n: Number)
    requires IsIntegerText(n) && NumberText(n) != ""
    ensures !LooksDouble(NumberText(n))
    ensures DecodeNumber(settings, NumberText(n))
         == if IsStored(n) then Some(DenoteNumber(settings, n)) else DecodeDouble(settings, NumberText(n))
  {
    var s, max := NumberText(n), MaxMagnitude(n.negative);
    assert s == if n.negative then ['-'] + n.digits else n.digits;
    AccumulateExactly(n.digits, max);
    if n.negative {
      AccumulateBehindSign('-', n.digits, 0, 0, max);
      assert forall k :: 1 <= k < |s| ==> s[k] == n.digits[k - 1];
    }
    assert !LooksDouble(s) && (s[0] == '-' <==> n.negative);
    if Denotes(n.digits) <= max {
      StoredExactly(n.negative, Denotes(n.digits));
    }
  }

  // ---------- values ----------

  /** The byte at i, if any, does not continue a number. */
  ghost predicate Delimited(doc: string, i: nat) {
    !IsNumberChar(Peek(doc, i))
  }

  /** Only numbers need something behind them that ends them. */
  ghost predicate Ends(doc: string, i: nat, t: Json) {
    t.JNumber? ==> Delimited(doc, i)
  }

  /** White space and then a structural character delimit what stands before them. */
  lemma SpacesDelimit(doc: string, i: nat, j: nat, ws: string)
    requires At(doc, i, j, ws) && AllSpaces(ws) && Delimited(doc, j)
    ensures Delimited(doc, i)
  {
    if ws != "" {
      AtFirst(doc, i, j, ws);
    }
  }

  /** The next token is a structural character behind white space. */
  lemma ReadStructuralAfterSpaces(doc: string, i: nat, j: nat, end: nat, ws: string, c: char)
    requires At(doc, i, j, ws) && AllSpaces(ws) && At(doc, j, end, [c]) && Structural(c) != ErrorToken
    ensures SkipComments(doc, i) == ReadToken(doc, i) == Token(Structural(c), j, end)
    ensures Delimited(doc, i)
  {
    ReadStructural(doc, j, end, c);
    ReadTokenAfterSpaces(doc, i, j, ws);
    AtFirst(doc, j, end, [c]);
    SpacesDelimit(doc, i, j, ws);
  }

  /** The first token of a value, with or without skipping comments. */
  lemma FirstTokenAt(doc: string, i: nat, j: nat, ws: string)
    requires At(doc, i, j, ws) && AllSpaces(ws)
    requires ReadToken(doc, j).kind != CommentToken
    ensures ReadToken(doc, i) == SkipComments(doc, i) == ReadToken(doc, j)
  {
    ReadTokenAfterSpaces(doc, i, j, ws);
  }

  /** The first token of a value, behind white space and comments if they are allowed. */
  lemma FirstTokenBehind(settings: Settings, doc: string, i: nat, j: nat, s: string)
    requires At(doc, i, j, s) && Filler(settings.allowComments, s)
    requires ReadToken(doc, j).kind != CommentToken
    ensures FirstToken(settings, doc, i) == ReadToken(doc, j)
  {
    if settings.allowComments {
      FillerIsSkipped(doc, i, j, s);
    } else {
      ReadTokenAfterSpaces(doc, i, j, s);
    }
  }

  /** The next token, comments aside, is a structural character behind a filler. */
  lemma ReadStructuralBehind(doc: string, i: nat, j: nat, end: nat, s: string, c: char)
    requires At(doc, i, j, s) && Filler(true, s) && At(doc, j, end, [c]) && Structural(c) != ErrorToken
    ensures SkipComments(doc, i) == Token(Structural(c), j, end)
    ensures Delimited(doc, i)
  {
    ReadStructural(doc, j, end, c);
    FillerIsSkipped(doc, i, j, s);
    AtFirst(doc, j, end, [c]);
    FillerDelimits(doc, i, j, s);
  }

  lemma FillerDelimits(doc: string, i: nat, j: nat, s: string)
    requires At(doc, i, j, s) && Filler(true, s) && Delimited(doc, j)
    ensures Delimited(doc, i)
  {
    if s != "" {
      FillerStart(true, s);
      AtFirst(doc, i, j, s);
    }
  }

  /** readValue() on the text of a tree that stands from start to end, behind white space from
      pos on, whatever the node held before. */
  lemma {:induction false} ReadsTree(settings: Settings, doc: string, pos: nat, start: nat, end: nat, ws: string, t: Json, before: Value)
    requires Loose(settings, t) && Filler(settings.allowComments, ws)
    requires At(doc, pos, start, ws) && At(doc, start, end, JsonText(t)) && Ends(doc, end, t)
    ensures pos <= |doc| && ReadValue(settings, doc, pos, before) == Outcome(end, Denote(settings, t), None)
    decreases t, 3
  {
    hide At, ReadToken, NumberText, StringText, ItemsBytes, DenoteNumber, DecodeString, DecodeNumber, SkipComments, FirstToken, Filler;
    assert pos <= |doc| by { AtBound(doc, pos, start, ws); }
    match t
    case JNull =>
      ReadNull(doc, start, end);
      FirstTokenBehind(settings, doc, pos, start, ws);
    case JBool(b) =>
      ReadBool(doc, start, end, b);
      FirstTokenBehind(settings, doc, pos, start, ws);
    case JNumber(n) =>
      NumberIsDecoded(settings, n);
      ReadNumberAt(doc, start, end, NumberText(n));
      FirstTokenBehind(settings, doc, pos, start, ws);
      AtSlice(doc, start, end, NumberText(n));
    case JString(items) =>
      StringIsReadBack(doc, start, end, items);
      FirstTokenBehind(settings, doc, pos, start, ws);
    case JArray(elems, pad) =>
      var next := AtSplit(doc, start, end, "[", ElemsText(elems, pad));
      ReadStructural(doc, start, next, '[');
      FirstTokenBehind(settings, doc, pos, start, ws);
      ReadsArray(settings, doc, next, end, elems, pad);
    case JObject(members, pad) =>
      var next := AtSplit(doc, start, end, "{", MembersText(members, pad));
      ReadStructural(doc, start, next, '{');
      FirstTokenBehind(settings, doc, pos, start, ws);
      ReadsMembers(settings, doc, next, end, members, pad, map[], true);
  }

  lemma AtBound(doc: string, i: nat, j: nat, s: string)
    requires At(doc, i, j, s)
    ensures i <= j <= |doc|
  {
  }

  lemma {:induction false} ReadsArray(settings: Settings, doc: string, pos: nat, end: nat, elems: seq<Elem>, pad: string)
    requires LooseElems(settings, elems) && (if elems == [] then AllSpaces(pad) else Filler(true, pad))
    requires At(doc, pos, end, ElemsText(elems, pad))
    ensures pos <= |doc| && ReadArray(settings, doc, pos) == Outcome(end, Arr(AddElems(settings, elems, map[], 0)), None)
    decreases elems, 2
  {
    assert pos <= |doc|;
    hide At, JsonText, Loose, Denote, ReadElements, AddElems;
    if elems == [] {
      var next := AtSplit(doc, pos, end, pad, "]");
      AtFirst(doc, next, end, "]");
      SkipSpacesOver(doc, pos, next, pad);
      assert AddElems(settings, elems, map[], 0) == map[] by { NothingToAdd(settings); }
    } else {
      ReadsElems(settings, doc, pos, end, elems, pad, map[], 0);
      NoBracketFirst(settings, doc, pos, end, elems, pad);
      ElementsAfterSpaces(settings, doc, pos);
    }
  }

  /** Spaces in front of the first element do not matter. */
  lemma ElementsAfterSpaces(settings: Settings, doc: string, pos: nat)
    requires pos <= |doc|
    ensures ReadElements(settings, doc, SkipSpaces(doc, pos), map[], 0) == ReadElements(settings, doc, pos, map[], 0)
  {
    hide SkipComments, DecodeString, DecodeNumber, ReadMembers, ReadArray;
    var start := SkipSpaces(doc, pos);
    SkipSpacesTwice(doc, pos);
    assert ReadToken(doc, start) == ReadToken(doc, pos);
    SkipCommentsSame(doc, start, pos);
    assert FirstToken(settings, doc, start) == FirstToken(settings, doc, pos);
    assert ReadValue(settings, doc, start, Null) == ReadValue(settings, doc, pos, Null);
  }

  lemma NothingToAdd(settings: Settings)
    ensures AddElems(settings, [], map[], 0) == map[]
  {
  }

  /** A non-empty array does not start with a closing bracket. */
  lemma NoBracketFirst(settings: Settings, doc: string, pos: nat, end: nat, elems: seq<Elem>, pad: string)
    requires LooseElems(settings, elems) && elems != []
    requires At(doc, pos, end, ElemsText(elems, pad))
    ensures pos <= |doc| && Peek(doc, SkipSpaces(doc, pos)) != ']'
  {
    assert pos <= |doc|;
    var e := elems[0];
    FirstByte(settings, e.value);
    hide At, JsonText;
    var rest := e.after + MoreElemsText(elems[1..], pad);
    var m := AtSplit(doc, pos, end, e.before, JsonText(e.value) + rest);
    var n := AtSplit(doc, m, end, JsonText(e.value), rest);
    AtFirst(doc, m, n, JsonText(e.value));
    assert SkipSpaces(doc, m) == m;
    FillerShows(doc, pos, m, settings.allowComments, e.before);
  }

  lemma FirstByte(settings: Settings, t: Json)
    requires Loose(settings, t)
    ensures JsonText(t) != "" && JsonText(t)[0] != ']' && !IsSpace(JsonText(t)[0])
  {
  }

  /** One turn of the loop of readArray() when nothing goes wrong. */
  lemma ElementsStep(settings: Settings, doc: string, pos: nat, items: map<nat, Value>, index: nat, child: Outcome, next: Token)
    requires pos <= |doc|
    requires child == ReadValue(settings, doc, pos, ElementAt(items, index)) && child.error.None?
    requires next == SkipComments(doc, child.pos) && next.kind in {ArrayEnd, ArraySeparator}
    ensures ReadElements(settings, doc, pos, items, index)
         == if next.kind == ArrayEnd then Outcome(next.end, Arr(items[index := child.value]), None)
            else ReadElements(settings, doc, next.end, items[index := child.value], index + 1)
  {
    hide SkipComments, ReadValue;
  }

  /** The bracket or the comma behind an element. */
  lemma BracketOrComma(doc: string, i: nat, j: nat, end: nat, ws: string, rest: seq<Elem>, pad: string)
    requires Filler(true, ws) && Filler(true, pad) && At(doc, i, j, ws) && At(doc, j, end, MoreElemsText(rest, pad))
    ensures i <= |doc| && Delimited(doc, i)
    ensures var next := SkipComments(doc, i);
            if rest == [] then next.kind == ArrayEnd && next.end == end
            else next.kind == ArraySeparator && At(doc, next.end, end, ElemsText(rest, pad))
  {
    AtBound(doc, i, j, ws);
    hide At, ReadToken, ElemsText, Filler, Delimited, SkipComments;
    if rest == [] {
      var m := AtSplit(doc, j, end, pad, "]");
      ReadStructuralBehind(doc, j, m, end, pad, ']');
      FillerDelimits(doc, i, j, ws);
      FillerIsSkipped(doc, i, j, ws);
    } else {
      var m := AtSplit(doc, j, end, ",", ElemsText(rest, pad));
      ReadStructuralBehind(doc, i, j, m, ws, ',');
    }
  }

  lemma {:induction false} ReadsElems(settings: Settings, doc: string, pos: nat, end: nat, elems: seq<Elem>, pad: string,
                                      items: map<nat, Value>, index: nat)
    requires LooseElems(settings, elems) && Filler(true, pad) && elems != []
    requires At(doc, pos, end, ElemsText(elems, pad))
    ensures pos <= |doc|
    ensures ReadElements(settings, doc, pos, items, index) == Outcome(end, Arr(AddElems(settings, elems, items, index)), None)
    decreases elems, 1
  {
    var e, rest := elems[0], elems[1..];
    assert pos <= |doc|;
    hide At, JsonText, MoreElemsText, ReadValue, ReadElements, Loose, Denote, SkipComments;
    var m1 := AtSplit(doc, pos, end, e.before, JsonText(e.value) + (e.after + MoreElemsText(rest, pad)));
    var m2 := AtSplit(doc, m1, end, JsonText(e.value), e.after + MoreElemsText(rest, pad));
    var m3 := AtSplit(doc, m2, end, e.after, MoreElemsText(rest, pad));
    BracketOrComma(doc, m2, m3, end, e.after, rest, pad);
    ReadsTree(settings, doc, pos, m1, m2, e.before, e.value, ElementAt(items, index));
    var child := ReadValue(settings, doc, pos, ElementAt(items, index));
    var next := SkipComments(doc, m2);
    ElementsStep(settings, doc, pos, items, index, child, next);
    if rest != [] {
      ReadsElems(settings, doc, next.end, end, rest, pad, items[index := child.value], index + 1);
    }
  }

  /** One turn of the loop of readObject() when nothing goes wrong. */
  lemma MembersStep(settings: Settings, doc: string, pos: nat, known: map<CString, Value>, closable: bool,
                    token: Token, name: string, colon: Token, child: Outcome, next: Token)
    requires pos <= |doc| && token == SkipComments(doc, pos) && token.kind == StringToken
    requires DecodeString(doc, token) == Decoded(name, false)
    requires colon == ReadToken(doc, token.end) && colon.kind == MemberSeparator
    requires child == ReadValue(settings, doc, colon.end, MemberAt(known, CStr(name))) && child.error.None?
    requires next == SkipComments(doc, child.pos) && next.kind in {ObjectEnd, ArraySeparator}
    ensures ReadMembers(settings, doc, pos, known, closable)
         == var known' := known[CStr(name) := child.value];
            if next.kind == ObjectEnd then Outcome(next.end, Obj(known'), None)
            else ReadMembers(settings, doc, next.end, known', name == "")
  {
    hide ReadToken, DecodeString, ReadValue;
    assert ReadToken(doc, child.pos) == next || ReadToken(doc, child.pos).kind == CommentToken;
    assert ReadMembers(settings, doc, pos, known, closable) == ReadMemberValue(settings, doc, colon.end, known, name);
  }

  lemma CommaBehind(doc: string, i: nat, j: nat, end: nat, ws: string, s: string)
    requires Filler(true, ws) && At(doc, i, j, ws) && At(doc, j, end, "," + s)
    ensures i <= |doc| && Delimited(doc, i)
    ensures SkipComments(doc, i).kind == ArraySeparator && At(doc, SkipComments(doc, i).end, end, s)
  {
    AtBound(doc, i, j, ws);
    hide At, ReadToken, Filler, Delimited, SkipComments;
    var k := AtSplit(doc, j, end, ",", s);
    ReadStructuralBehind(doc, i, j, k, ws, ',');
  }

  /** The comma that stands in front of the closing brace. */
  lemma CommaInPad(doc: string, i: nat, end: nat, pad: string) returns (post: string)
    requires CommaPad(pad) && At(doc, i, end, pad + "}")
    ensures i <= |doc| && Delimited(doc, i) && Filler(true, post)
    ensures SkipComments(doc, i).kind == ArraySeparator && At(doc, SkipComments(doc, i).end, end, post + "}")
  {
    var pre;
    pre, post :| Filler(true, pre) && Filler(true, post) && pad == pre + ("," + post);
    assert pad + "}" == pre + ("," + (post + "}"));
    hide At, ReadToken, Filler, Delimited;
    var k := AtSplit(doc, i, end, pre, "," + (post + "}"));
    CommaBehind(doc, i, k, end, pre, post + "}");
  }

  /** The brace or the comma behind a member; behind a comma other members follow, or none. */
  lemma BraceOrComma(settings: Settings, doc: string, i: nat, j: nat, end: nat, m: Member, rest: seq<Member>, pad: string)
      returns (pad': string)
    requires Filler(true, m.after) && At(doc, i, j, m.after) && At(doc, j, end, MoreMembersText(rest, pad))
    requires if rest == [] then LoosePad(m, pad) else LooseMembers(settings, rest, pad)
    ensures i <= |doc| && Delimited(doc, i)
    ensures var next := SkipComments(doc, i);
            if rest == [] && Filler(true, pad) then next.kind == ObjectEnd && next.end == end
            else
              && next.kind == ArraySeparator && (rest == [] ==> ItemsBytes(m.name) == "")
              && At(doc, next.end, end, MembersText(rest, pad')) && LooseMembers(settings, rest, pad')
  {
    AtBound(doc, i, j, m.after);
    pad' := pad;
    if rest == [] {
      hide At, ReadToken, Filler, Delimited, SkipComments, ItemsBytes;
      if Filler(true, pad) {
        var k := AtSplit(doc, j, end, pad, "}");
        ReadStructuralBehind(doc, j, k, end, pad, '}');
      } else {
        pad' := CommaInPad(doc, j, end, pad);
      }
      FillerDelimits(doc, i, j, m.after);
      FillerIsSkipped(doc, i, j, m.after);
    } else {
      hide At, ReadToken, MembersText, Filler, Delimited, SkipComments, LooseMembers;
      CommaBehind(doc, i, j, end, m.after, MembersText(rest, pad));
    }
  }

  /** The name and the colon in front of a value. */
  lemma NameAndColon(doc: string, i0: nat, i1: nat, i2: nat, i3: nat, i4: nat, before: string, name: seq<Item>, after: string)
    requires Filler(true, before) && AllSpaces(after) && LooseItems(name)
    requires At(doc, i0, i1, before) && At(doc, i1, i2, StringText(name)) && At(doc, i2, i3, after) && At(doc, i3, i4, ":")
    ensures i0 <= |doc|
    ensures var token := SkipComments(doc, i0);
            && token.kind == StringToken && DecodeString(doc, token) == Decoded(ItemsBytes(name), false)
            && ReadToken(doc, token.end).kind == MemberSeparator && ReadToken(doc, token.end).end == i4
  {
    AtBound(doc, i0, i1, before);
    hide At, ReadToken, StringText, DecodeString, ItemsBytes, SkipComments, AllSpaces, Filler, LooseItems;
    StringIsReadBack(doc, i1, i2, name);
    FillerIsSkipped(doc, i0, i1, before);
    ReadStructuralAfterSpaces(doc, i2, i3, i4, after, ':');
  }

  /** Where the parts of a member stand. */
  lemma MemberParts(doc: string, pos: nat, end: nat, m: Member, rest: seq<Member>, pad: string)
      returns (i1: nat, i2: nat, i3: nat, i4: nat, i5: nat, i6: nat, i7: nat)
    requires At(doc, pos, end, MembersText([m] + rest, pad))
    ensures At(doc, pos, i1, m.before) && At(doc, i1, i2, StringText(m.name)) && At(doc, i2, i3, m.afterName)
    ensures At(doc, i3, i4, ":") && At(doc, i4, i5, m.beforeValue) && At(doc, i5, i6, JsonText(m.value))
    ensures At(doc, i6, i7, m.after) && At(doc, i7, end, MoreMembersText(rest, pad))
  {
    hide At, JsonText, MoreMembersText, StringText;
    assert ([m] + rest)[1..] == rest;
    var more := MoreMembersText(rest, pad);
    var s5 := JsonText(m.value) + (m.after + more);
    var s3 := m.afterName + (":" + (m.beforeValue + s5));
    i1 := AtSplit(doc, pos, end, m.before, StringText(m.name) + s3);
    i2 := AtSplit(doc, i1, end, StringText(m.name), s3);
    i3 := AtSplit(doc, i2, end, m.afterName, ":" + (m.beforeValue + s5));
    i4 := AtSplit(doc, i3, end, ":", m.beforeValue + s5);
    i5 := AtSplit(doc, i4, end, m.beforeValue, s5);
    i6 := AtSplit(doc, i5, end, JsonText(m.value), m.after + more);
    i7 := AtSplit(doc, i6, end, m.after, more);
  }

  /** A member, and the token behind it; what follows is read from there on. */
  lemma ReadsMember(settings: Settings, doc: string, pos: nat, i1: nat, i2: nat, i3: nat, i4: nat, i6: nat, m: Member,
                    known: map<CString, Value>, closable: bool)
    requires LooseItems(m.name) && Filler(true, m.before) && AllSpaces(m.afterName)
    requires At(doc, pos, i1, m.before) && At(doc, i1, i2, StringText(m.name)) && At(doc, i2, i3, m.afterName)
    requires At(doc, i3, i4, ":") && i4 <= |doc| && i6 <= |doc|
    requires ReadValue(settings, doc, i4, MemberAt(known, NameOf(m))) == Outcome(i6, Denote(settings, m.value), None)
    requires SkipComments(doc, i6).kind in {ObjectEnd, ArraySeparator}
    ensures pos <= |doc|
    ensures var next, known' := SkipComments(doc, i6), known[NameOf(m) := Denote(settings, m.value)];
            ReadMembers(settings, doc, pos, known, closable) ==
            if next.kind == ObjectEnd then Outcome(next.end, Obj(known'), None)
            else ReadMembers(settings, doc, next.end, known', ItemsBytes(m.name) == "")
  {
    hide At, ReadValue, ReadMembers, Denote, StringText, DecodeString, ItemsBytes, SkipComments, ReadToken, CStr;
    NameAndColon(doc, pos, i1, i2, i3, i4, m.before, m.name, m.afterName);
    var token := SkipComments(doc, pos);
    var child := ReadValue(settings, doc, i4, MemberAt(known, NameOf(m)));
    MembersStep(settings, doc, pos, known, closable, token, ItemsBytes(m.name), ReadToken(doc, token.end), child, SkipComments(doc, i6));
  }

  lemma FirstMember(settings: Settings, m: Member, rest: seq<Member>, pad: string, known: map<CString, Value>)
    requires LooseMembers(settings, [m] + rest, pad)
    ensures Filler(true, m.before) && AllSpaces(m.afterName)
    ensures Filler(settings.allowComments, m.beforeValue) && Filler(true, m.after)
    ensures LooseItems(m.name) && Loose(settings, m.value)
    ensures if rest == [] then LoosePad(m, pad) else LooseMembers(settings, rest, pad)
    ensures var known' := known[NameOf(m) := Denote(settings, m.value)];
            && AddMembers(settings, [m] + rest, known) == AddMembers(settings, rest, known')
            && AddMembers(settings, [], known') == known'
  {
    assert ([m] + rest)[1..] == rest;
  }

  lemma ReadsBrace(settings: Settings, doc: string, pos: nat, end: nat, pad: string, known: map<CString, Value>)
    requires Filler(true, pad) && At(doc, pos, end, pad + "}")
    ensures pos <= |doc| && ReadMembers(settings, doc, pos, known, true) == Outcome(end, Obj(known), None)
  {
    hide At, ReadToken, SkipComments;
    var m := AtSplit(doc, pos, end, pad, "}");
    ReadStructuralBehind(doc, pos, m, end, pad, '}');
  }

  lemma {:induction false} ReadsMembers(settings: Settings, doc: string, pos: nat, end: nat, members: seq<Member>, pad: string,
                                        known: map<CString, Value>, closable: bool)
    requires LooseMembers(settings, members, pad)
    requires members == [] ==> closable
    requires At(doc, pos, end, MembersText(members, pad))
    ensures pos <= |doc|
    ensures ReadMembers(settings, doc, pos, known, closable) == Outcome(end, Obj(AddMembers(settings, members, known)), None)
    decreases members, 1
  {
    if members == [] {
      ReadsBrace(settings, doc, pos, end, pad, known);
    } else {
      assert pos <= |doc|;
      var m, rest := members[0], members[1..];
      assert members == [m] + rest;
      FirstMember(settings, m, rest, pad, known);
      hide At, JsonText, MembersText, MoreMembersText, ReadValue, ReadMembers, Loose, Denote, StringText, DecodeString, ItemsBytes,
           SkipComments, ReadToken, CStr, LoosePad, AllSpaces, Filler, LooseItems, LooseMembers, AddMembers, NameOf;
      var i1, i2, i3, i4, i5, i6, i7 := MemberParts(doc, pos, end, m, rest, pad);
      var pad' := BraceOrComma(settings, doc, i6, i7, end, m, rest, pad);
      ReadsTree(settings, doc, i4, i5, i6, m.beforeValue, m.value, MemberAt(known, NameOf(m)));
      ReadsMember(settings, doc, pos, i1, i2, i3, i4, i6, m, known, closable);
      var known', next := known[NameOf(m) := Denote(settings, m.value)], SkipComments(doc, i6);
      if next.kind != ObjectEnd {
        assert rest == [] ==> ItemsBytes(m.name) == "";
        ReadsMembers(settings, doc, next.end, end, rest, pad', known', ItemsBytes(m.name) == "");
      }
    }
  }

  /** A JSON text of RFC 8259: a value between white space. */
  ghost predicate IsJsonText(settings: Settings, doc: string, t: Json) {
    ValidJson(settings, t) && exists ws, ws' :: AllSpaces(ws) && AllSpaces(ws') && doc == ws + JsonText(t) + ws'
  }

  /** readValue() at the start of a document. */
  lemma ReadsStart(settings: Settings, ws: string, t: Json, tail: string, before: Value)
    requires Loose(settings, t) && Filler(settings.allowComments, ws)
    requires t.JNumber? && tail != "" ==> !IsNumberChar(tail[0])
    ensures var r := ReadValue(settings, ws + JsonText(t) + tail, 0, before);
            r.error.None? && r.value == Denote(settings, t)
  {
    var doc := ws + JsonText(t) + tail;
    hide ReadValue, JsonText;
    AtSlice(doc, 0, |doc|, doc);
    var end := AtSplit(doc, 0, |doc|, ws + JsonText(t), tail);
    var start := AtSplit(doc, 0, end, ws, JsonText(t));
    if tail != "" {
      AtFirst(doc, end, |doc|, tail);
    }
    ReadsTree(settings, doc, 0, start, end, ws, t, before);
  }

  /** parse() reads the value at the start of a document, and never looks whether anything but
      the end of the document follows. */
  lemma ParseIgnoresTail(settings: Settings, ws: string, t: Json, tail: string, before: Value)
    requires Loose(settings, t) && Filler(settings.allowComments, ws)
    requires t.JNumber? && tail != "" ==> !IsNumberChar(tail[0])
    requires settings.strictRoot ==> IsRoot(Denote(settings, t))
    ensures Parse(settings, ws + JsonText(t) + tail, before) == Parsed(true, Denote(settings, t), [])
  {
    hide ReadValue, JsonText, Loose, Denote;
    ReadsStart(settings, ws, t, tail, before);
  }

  /** Completeness: parse() accepts every JSON text and stores the value it denotes, without
      errors; in strict mode the root must be an array, an object or null. */
  lemma ParseIsComplete(settings: Settings, doc: string, t: Json, before: Value)
    requires IsJsonText(settings, doc, t)
    requires settings.strictRoot ==> t.JArray? || t.JObject? || t.JNull?
    ensures Parse(settings, doc, before) == Parsed(true, Denote(settings, t), [])
  {
    var ws, ws' :| AllSpaces(ws) && AllSpaces(ws') && doc == ws + JsonText(t) + ws';
    ValidIsLoose(settings, t);
    ParseIgnoresTail(settings, ws, t, ws', before);
  }
}
