// Texts outside the grammar that the reader nevertheless takes, and when it does.
module Leniency {
  import opened Text
  import opened Values
  import opened Numbers
  import opened Scanner
  import opened Comments
  import opened Strings
  import opened Parser
  import opened Grammar
  import opened Completeness

  // ---------- a comma in front of the closing brace ----------

  /** The comma is part of the grammar of the reader behind a member with an empty name. */
  lemma {:induction false} CommaIsLoose(settings: Settings, members: seq<Member>, pad: string)
    requires members != [] && LooseMembers(settings, members, "") && Filler(true, pad)
    requires ItemsBytes(members[|members| - 1].name) == ""
    ensures LooseMembers(settings, members, "," + pad)
    decreases |members|
  {
    if |members| == 1 {
      assert "," + pad == "" + ("," + pad);
      assert CommaPad("," + pad);
    } else {
      CommaIsLoose(settings, members[1..], pad);
    }
  }

  /** Behind any other member it is an error: the brace stands where a name should. */
  lemma {:induction false} CommaFails(settings: Settings, doc: string, pos: nat, end: nat, members: seq<Member>, pad: string,
                                      known: map<CString, Value>, closable: bool)
    requires members != [] && LooseMembers(settings, members, "") && Filler(true, pad)
    requires ItemsBytes(members[|members| - 1].name) != ""
    requires At(doc, pos, end, MembersText(members, "," + pad))
    ensures pos <= |doc| && ReadMembers(settings, doc, pos, known, closable).error.Some?
    decreases |members|
  {
    assert pos <= |doc|;
    var m, rest := members[0], members[1..];
    assert members == [m] + rest;
    assert LooseItems(m.name) && Loose(settings, m.value) && Filler(true, m.after);
    assert rest != [] ==> LooseMembers(settings, rest, "") && rest[|rest| - 1] == members[|members| - 1];
    var i1, i2, i3, i4, i5, i6, i7 := MemberParts(doc, pos, end, m, rest, "," + pad);
    assert MoreMembersText(rest, "," + pad) == "," + MembersText(rest, if rest == [] then pad else "," + pad) by {
      assert "," + pad + "}" == "," + (pad + "}");
    }
    hide At, JsonText, MembersText, MoreMembersText, ReadValue, Loose, Denote, StringText, ItemsBytes, ReadToken, Filler,
         LooseItems, LooseMembers, ReadMembers;
    CommaBehind(doc, i6, i7, end, m.after, MembersText(rest, if rest == [] then pad else "," + pad));
    ReadsTree(settings, doc, i4, i5, i6, m.beforeValue, m.value, MemberAt(known, NameOf(m)));
    ReadsMember(settings, doc, pos, i1, i2, i3, i4, i6, m, known, closable);
    var known', next := known[NameOf(m) := Denote(settings, m.value)], SkipComments(doc, i6);
    if rest == [] {
      BraceFails(settings, doc, next.end, end, pad, known');
    } else {
      CommaFails(settings, doc, next.end, end, rest, pad, known', ItemsBytes(m.name) == "");
    }
  }

  lemma BraceFails(settings: Settings, doc: string, pos: nat, end: nat, pad: string, known: map<CString, Value>)
    requires Filler(true, pad) && At(doc, pos, end, MembersText([], pad))
    ensures pos <= |doc| && ReadMembers(settings, doc, pos, known, false).error.Some?
  {
    hide At, ReadToken, SkipComments;
    var m := AtSplit(doc, pos, end, pad, "}");
    ReadStructuralBehind(doc, pos, m, end, pad, '}');
  }

  /** parse() of an object with a comma behind its last member succeeds if and only if the name of that
      member is empty; then the comma means nothing. */
  lemma TrailingComma(settings: Settings, members: seq<Member>, pad: string, before: Value)
    requires members != [] && LooseMembers(settings, members, "") && Filler(true, pad)
    ensures var t := JObject(members, "," + pad);
            var r := Parse(settings, JsonText(t), before);
            && (r.ok <==> ItemsBytes(members[|members| - 1].name) == "")
            && (r.ok ==> r == Parsed(true, Obj(AddMembers(settings, members, map[])), []))
  {
    var t := JObject(members, "," + pad);
    var doc := JsonText(t);
    if ItemsBytes(members[|members| - 1].name) == "" {
      CommaIsLoose(settings, members, pad);
      assert "" + doc + "" == doc;
      ParseIgnoresTail(settings, "", t, "", before);
    } else {
      AtSlice(doc, 0, |doc|, doc);
      assert JsonText(t) == "{" + MembersText(members, "," + pad);
      hide JsonText, ReadMembers, MembersText, LooseMembers;
      var next := AtSplit(doc, 0, |doc|, "{", MembersText(members, "," + pad));
      assert At(doc, 0, 0, "");
      ReadStructuralAfterSpaces(doc, 0, 0, next, "", '{');
      CommaFails(settings, doc, next, |doc|, members, pad, map[], true);
    }
  }

  /** {"":null,} is taken, and {"a":null,} is not. */
  lemma TrailingCommaExamples(settings: Settings, before: Value)
    ensures Parse(settings, "{\"\":null,}", before) == Parsed(true, Obj(map["" := Null]), [])
    ensures !Parse(settings, "{\"a\":null,}", before).ok
  {
    CommaBehindOne(settings, [], before);
    CommaBehindOne(settings, [Unescaped('a')], before);
    assert StringText([]) == "\"" + ("" + "\"");
    assert "{" + StringText([]) + ":null,}" == "{\"\":null,}";
    var a := [Unescaped('a')];
    assert a[1..] == [] && ItemsText(a) == "a" + "" && ItemsBytes(a) == "a" + "";
    assert "{" + StringText([Unescaped('a')]) + ":null,}" == "{\"a\":null,}";
  }

  lemma ObjectOfOne(members: seq<Member>, name: seq<Item>)
    requires members == [Member("", name, "", "", JNull, "")]
    ensures JsonText(JObject(members, ",")) == "{" + StringText(name) + ":null,}"
  {
    hide StringText;
    var n := StringText(name);
    assert members[1..] == [];
    assert MoreMembersText([], ",") == ",}";
    assert MembersText(members, ",") == "" + (n + ("" + (":" + ("" + ("null" + ("" + ",}"))))));
    assert "" + (n + ("" + (":" + ("" + ("null" + ("" + ",}")))))) == n + ":null,}";
    assert "{" + (n + ":null,}") == "{" + n + ":null,}";
  }

  lemma CommaBehindOne(settings: Settings, name: seq<Item>, before: Value)
    requires LooseItems(name)
    ensures var r := Parse(settings, "{" + StringText(name) + ":null,}", before);
            (r.ok <==> ItemsBytes(name) == "") && (r.ok ==> r == Parsed(true, Obj(map[CStr("") := Null]), []))
  {
    var members := [Member("", name, "", "", JNull, "")];
    hide ItemsText, ItemsBytes, LooseItems;
    TrailingComma(settings, members, "", before);
    assert members[1..] == [];
    assert AddMembers(settings, members, map[]) == AddMembers(settings, [], map[][NameOf(members[0]) := Null]);
    assert "," + "" == ",";
    ObjectOfOne(members, name);
  }

  // ---------- numbers that wrap ----------

  lemma WrappedIsLoose(settings: Settings, n: Number)
    requires IsIntegerText(n) && Wraps(Denotes(n.digits), MaxMagnitude(n.negative))
    ensures LooseNumber(settings, n) && DenoteNumber(settings, n) == StoredInteger(n.negative, WrapU64(Denotes(n.digits)))
  {
    var text := NumberText(n);
    assert n.digits != "";
    assert forall k :: 0 <= k < |text| ==>
      text[k] == if n.negative && k == 0 then '-' else n.digits[if n.negative then k - 1 else k];
  }

  /** parse() of an integer out of range that the loop takes for one stores what is left of it in 64 bits. */
  lemma WrappedNumber(settings: Settings, negative: bool, digits: string, before: Value)
    requires AllDigits(digits) && Wraps(Denotes(digits), MaxMagnitude(negative)) && !settings.strictRoot
    ensures Parse(settings, (if negative then "-" else "") + digits, before)
         == Parsed(true, StoredInteger(negative, WrapU64(Denotes(digits))), [])
  {
    var n := Number(negative, digits, "", "");
    var text := (if negative then "-" else "") + digits;
    WrappedIsLoose(settings, n);
    assert NumberText(n) == text && "" + text + "" == text;
    hide LooseNumber, DenoteNumber, StoredInteger, Denotes, NumberText, Parse, Wraps;
    ParseIgnoresTail(settings, "", JNumber(n), "", before);
  }

  /** 2^64 + 4 is read as 4. */
  lemma WrappedNumberExample(settings: Settings, before: Value)
    requires !settings.strictRoot
    ensures Parse(settings, Decimal(TWO_64 + 4), before) == Parsed(true, Int(4), [])
  {
    hide Decimal, Denotes, Parse;
    var digits := Decimal(TWO_64 + 4);
    WrappedNumber(settings, false, digits, before);
    assert "" + digits == digits;
  }

  // ---------- comments ----------

  /** The tree with a blank in place of whatever stands between its tokens. */
  ghost function Blanked(t: Json): Json
    decreases t
  {
    match t
    case JArray(elems, _) => JArray(BlankedElems(elems), " ")
    case JObject(members, pad) => JObject(BlankedMembers(members), if Filler(true, pad) then " " else " , ")
    case _ => t
  }

  ghost function BlankedElems(elems: seq<Elem>): seq<Elem>
    decreases elems
  {
    if elems == [] then [] else [Elem(" ", Blanked(elems[0].value), " ")] + BlankedElems(elems[1..])
  }

  ghost function BlankedMembers(members: seq<Member>): seq<Member>
    decreases members
  {
    if members == [] then []
    else [Member(" ", members[0].name, " ", " ", Blanked(members[0].value), " ")] + BlankedMembers(members[1..])
  }

  /** It is in the grammar of the reader with comments off, and denotes the same. */
  lemma {:induction false} BlankedIsLoose(settings: Settings, off: Settings, t: Json)
    requires Loose(settings, t) && off == settings.(allowComments := false)
    ensures Loose(off, Blanked(t)) && Denote(off, Blanked(t)) == Denote(settings, t)
    decreases t, 2
  {
    match t
    case JArray(elems, pad) => BlankedElemsAreLoose(settings, off, elems, map[], 0);
    case JObject(members, pad) => BlankedMembersAreLoose(settings, off, members, pad, map[]);
    case _ =>
  }

  lemma {:induction false} BlankedElemsAreLoose(settings: Settings, off: Settings, elems: seq<Elem>, items: map<nat, Value>, index: nat)
    requires LooseElems(settings, elems) && off == settings.(allowComments := false)
    ensures LooseElems(off, BlankedElems(elems))
    ensures AddElems(off, BlankedElems(elems), items, index) == AddElems(settings, elems, items, index)
    decreases elems, 1
  {
    if elems != [] {
      hide Loose, Denote, Blanked;
      BlankedIsLoose(settings, off, elems[0].value);
      assert BlankedElems(elems)[1..] == BlankedElems(elems[1..]);
      BlankedElemsAreLoose(settings, off, elems[1..], items[index := Denote(settings, elems[0].value)], index + 1);
    }
  }

  lemma {:induction false} BlankedMembersAreLoose(settings: Settings, off: Settings, members: seq<Member>, pad: string,
                                                  known: map<CString, Value>)
    requires LooseMembers(settings, members, pad) && off == settings.(allowComments := false)
    ensures LooseMembers(off, BlankedMembers(members), if Filler(true, pad) then " " else " , ")
    ensures AddMembers(off, BlankedMembers(members), known) == AddMembers(settings, members, known)
    decreases members, 1
  {
    if members != [] {
      hide Loose, Denote, Blanked, ItemsBytes, LooseItems;
      var m, rest := members[0], members[1..];
      BlankedIsLoose(settings, off, m.value);
      var blanked := BlankedMembers(members);
      assert |blanked| == 1 + |BlankedMembers(rest)| && blanked[1..] == BlankedMembers(rest);
      BlankComma();
      if rest != [] {
        BlankedMembersAreLoose(settings, off, rest, pad, known[NameOf(m) := Denote(settings, m.value)]);
      }
    }
  }

  lemma BlankComma()
    ensures Filler(true, " ") && Filler(false, " ") && AllSpaces(" ") && CommaPad(" , ")
  {
    var blank := " ";
    assert AllSpaces(blank) && Filler(true, blank) && Filler(false, blank);
    assert " , " == blank + ("," + blank);
  }

  /** parse() of a text with comments where the reader skips them comes to the same as parse(), with comments off, of
      the text with blanks in their place. */
  lemma CommentsAreBlanks(settings: Settings, ws: string, t: Json, tail: string, before: Value)
    requires Loose(settings, t) && Filler(settings.allowComments, ws)
    requires t.JNumber? && tail != "" ==> !IsNumberChar(tail[0])
    requires settings.strictRoot ==> IsRoot(Denote(settings, t))
    ensures var off := settings.(allowComments := false);
            Parse(settings, ws + JsonText(t) + tail, before) == Parse(off, " " + JsonText(Blanked(t)) + tail, before)
         == Parsed(true, Denote(settings, t), [])
  {
    var off := settings.(allowComments := false);
    BlankedIsLoose(settings, off, t);
    BlankComma();
    assert t.JNumber? <==> Blanked(t).JNumber?;
    hide Parse, Loose, JsonText, Denote, Filler, Blanked;
    ParseIgnoresTail(settings, ws, t, tail, before);
    ParseIgnoresTail(off, " ", Blanked(t), tail, before);
  }

  /** With comments off, a comment in front of a value is an error there. */
  lemma CommentIsNoValue(settings: Settings, doc: string, pos: nat, i: nat, j: nat, ws: string, c: string, before: Value)
    requires !settings.allowComments && AllSpaces(ws) && IsComment(c) && At(doc, pos, i, ws) && At(doc, i, j, c)
    ensures pos <= |doc|
    ensures ReadValue(settings, doc, pos, before) == Outcome(j, before, Some(ErrorAt(Token(CommentToken, i, j), ValueExpected)))
  {
    AtBound(doc, pos, i, ws);
    CommentIsRead(doc, i, j, c);
    ReadTokenAfterSpaces(doc, pos, i, ws);
  }

  lemma CommentOffFails(settings: Settings, ws: string, c: string, rest: string, before: Value)
    requires !settings.allowComments && AllSpaces(ws) && IsComment(c)
    ensures var r := Parse(settings, ws + c + rest, before);
            && !r.ok && r.root == before
            && r.errors[0] == ErrorAt(Token(CommentToken, |ws|, |ws| + |c|), ValueExpected)
  {
    hide IsComment, ReadValue, At, AllSpaces;
    var doc := ws + c + rest;
    AtSlice(doc, 0, |doc|, doc);
    var j := AtSplit(doc, 0, |doc|, ws + c, rest);
    var i := AtSplit(doc, 0, j, ws, c);
    CommentIsNoValue(settings, doc, 0, i, j, ws, c, before);
  }

  /** A line comment ends with its line. */
  lemma LineCommentExample(settings: Settings, before: Value)
    requires settings.allowComments && !settings.strictRoot
    ensures Parse(settings, "//a\nnull", before) == Parsed(true, Null, [])
  {
    assert LineComment("//a\n", "a", '\n');
    assert "//a\n" == "" + ("//a\n" + "");
    assert Begins("//a\n", "", "//a\n", "");
    assert "//a\n" + JsonText(JNull) + "" == "//a\nnull";
    ParseIgnoresTail(settings, "//a\n", JNull, "", before);
  }
}
