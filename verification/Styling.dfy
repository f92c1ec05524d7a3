// The layout of the pretty-printer as a function of the document written so far, and the proof
// that it only adds white space to what the compact writer prints.
module Styling {
  import opened Text
  import opened Values
  import opened Strings
  import opened Quoting
  import opened Parser
  import opened Grammar
  import opened Printing
  import opened Whitespace

  const RIGHT_MARGIN: nat := 74
  const INDENT: string := "   "
  /** Largest array size whose triple fits an int. */
  const MAX_SIZE: nat := 715827882

  /** writeIndent() */
  function WriteIndent(document: string, indent: string): string {
    if document == "" then indent
    else if document[|document| - 1] == ' ' then document
    else if document[|document| - 1] != '\n' then document + ['\n'] + indent
    else document + indent
  }

  /** Scalars and empty containers: what pushValue() writes in one piece. */
  predicate IsSimple(v: Value) {
    match v
    case Arr(items) => Size(items) == 0
    case Obj(members) => members == map[]
    case _ => true
  }

  /** The text of a value without white space. */
  ghost function Plain(style: Style, v: Value): string {
    JsonText(TreeOf(style, v))
  }

  ghost function TotalLength(style: Style, v: Value, i: nat, n: nat): nat
    requires v.Arr?
    decreases n - i
  {
    if i >= n then 0 else |Plain(style, ElementAt(v.items, i))| + TotalLength(style, v, i + 1, n)
  }

  /** The length of the array on a single line: brackets, separators and elements. */
  ghost function LineLength(style: Style, v: Value): int
    requires v.Arr?
  {
    4 + (Size(v.items) - 1) * 2 + TotalLength(style, v, 0, Size(v.items))
  }

  predicate TooMany(items: map<nat, Value>) {
    Size(items) * 3 >= RIGHT_MARGIN
  }

  predicate HasNested(items: map<nat, Value>) {
    exists k :: 0 <= k < Size(items) && !IsSimple(ElementAt(items, k))
  }

  /** An array takes a line per element if it has too many elements, a nested container, or a
      single line would reach the right margin. */
  ghost predicate IsMultiLine(style: Style, v: Value)
    requires v.Arr?
  {
    TooMany(v.items) || HasNested(v.items) || LineLength(style, v) >= RIGHT_MARGIN
  }

  /** The elements from i to n on a single line. */
  ghost function Joined(style: Style, v: Value, i: nat, n: nat): string
    requires v.Arr?
    decreases n - i
  {
    if i >= n then ""
    else if i == 0 then Plain(style, ElementAt(v.items, i)) + Joined(style, v, i + 1, n)
    else ", " + (Plain(style, ElementAt(v.items, i)) + Joined(style, v, i + 1, n))
  }

  /** The document after writing v behind it. */
  ghost function Styled(style: Style, document: string, indent: string, v: Value): string
    decreases !v.Null?, v, 2, 0
  {
    if IsSimple(v) then document + Plain(style, v)
    else if v.Obj? then
      var inner := StyledMembers(style, WriteIndent(document, indent) + "{", indent + INDENT, v, MemberNames(v.members));
      WriteIndent(inner, indent) + "}"
    else if IsMultiLine(style, v) then
      var inner := StyledElems(style, WriteIndent(document, indent) + "[", indent + INDENT, v, 0, Size(v.items));
      WriteIndent(inner, indent) + "]"
    else document + ("[ " + (Joined(style, v, 0, Size(v.items)) + " ]"))
  }

  lemma StyledObject(style: Style, document: string, indent: string, v: Value)
    requires v.Obj? && !IsSimple(v)
    ensures Styled(style, document, indent, v)
         == WriteIndent(StyledMembers(style, WriteIndent(document, indent) + "{", indent + INDENT, v, MemberNames(v.members)), indent) + "}"
  {
  }

  lemma StyledLine(style: Style, document: string, indent: string, v: Value)
    requires v.Arr? && !IsSimple(v) && !IsMultiLine(style, v)
    ensures Styled(style, document, indent, v) == document + ("[ " + (Joined(style, v, 0, Size(v.items)) + " ]"))
  {
  }

  lemma LineElements(style: Style, v: Value)
    requires v.Arr? && !IsSimple(v) && !IsMultiLine(style, v)
    ensures Size(v.items) == Count(v.items) > 0
    ensures forall k :: 0 <= k < Size(v.items) ==> IsSimple(ElementAt(v.items, k))
  {
  }

  /** The document after writing the elements from i to n, one on each line. */
  ghost function StyledElems(style: Style, document: string, indent: string, v: Value, i: nat, n: nat): string
    requires v.Arr? && i < n
    decreases !v.Null?, v, 1, n - i
  {
    var written := Styled(style, WriteIndent(document, indent), indent, ElementAt(v.items, i));
    if i + 1 == n then written else StyledElems(style, written + ",", indent, v, i + 1, n)
  }

  /** The document after writing the members with these names, one on each line. */
  ghost function StyledMembers(style: Style, document: string, indent: string, v: Value, names: seq<CString>): string
    requires v.Obj? && (forall name :: name in names ==> name in v.members)
    decreases !v.Null?, v, 1, |names|
  {
    if names == [] then document
    else
      var name := WriteIndent(document, indent) + StringText(QuoteItems(names[0])) + " : ";
      var written := Styled(style, name, indent, v.members[names[0]]);
      if |names| == 1 then written else StyledMembers(style, written + ",", indent, v, names[1..])
  }

  // ---------- single lines ----------

  lemma {:induction false} JoinedLength(style: Style, v: Value, i: nat, n: nat)
    requires v.Arr? && i <= n
    ensures |Joined(style, v, i, n)| == TotalLength(style, v, i, n) + 2 * (if i == 0 < n then n - 1 else n - i)
    decreases n - i
  {
    if i < n {
      JoinedLength(style, v, i + 1, n);
    }
  }

  /** An array on a single line takes exactly LineLength characters, which is below the margin. */
  lemma SingleLineFits(style: Style, document: string, indent: string, v: Value)
    requires v.Arr? && !IsSimple(v) && !IsMultiLine(style, v)
    ensures |Styled(style, document, indent, v)| == |document| + LineLength(style, v)
    ensures LineLength(style, v) < RIGHT_MARGIN
  {
    JoinedLength(style, v, 0, Size(v.items));
  }

  // ---------- styled text is text of the same tree with white space ----------

  /** What is written behind the document is white space and then the text of a tree. */
  ghost predicate Writes(before: string, after: string, ws: string, t: Json) {
    after == before + (ws + JsonText(t)) && AllSpaces(ws) && Spaced(t)
  }

  lemma WriteIndentAddsSpaces(document: string, indent: string) returns (ws: string)
    requires AllSpaces(indent)
    ensures WriteIndent(document, indent) == document + ws && AllSpaces(ws)
  {
    if document == "" {
      ws := indent;
    } else if document[|document| - 1] == ' ' {
      ws := "";
    } else if document[|document| - 1] != '\n' {
      ws := ['\n'] + indent;
      assert document + ['\n'] + indent == document + ws;
    } else {
      ws := indent;
    }
  }

  lemma IndentDeeper(indent: string)
    requires AllSpaces(indent)
    ensures AllSpaces(indent + INDENT)
  {
  }

  lemma {:induction false} StyledIsTree(style: Style, document: string, indent: string, v: Value)
    returns (ws: string, t: Json)
    requires !style.yaml && AllSpaces(indent) && ArraysWithin(v, MAX_SIZE)
    ensures Writes(document, Styled(style, document, indent, v), ws, t)
    ensures Compact(t) == TreeOf(style, v)
    decreases !v.Null?, v, 2, 0
  {
    if IsSimple(v) {
      ws, t := SimpleIsTree(style, document, indent, v);
    } else if v.Obj? {
      ws, t := ObjectIsTree(style, document, indent, v);
    } else if IsMultiLine(style, v) {
      ws, t := ArrayIsTree(style, document, indent, v);
    } else {
      ws, t := LineIsTree(style, document, indent, v);
    }
  }

  lemma SimpleIsTree(style: Style, document: string, indent: string, v: Value) returns (ws: string, t: Json)
    requires IsSimple(v)
    ensures Writes(document, Styled(style, document, indent, v), ws, t)
    ensures ws == "" && JsonText(t) == Plain(style, v)
    ensures Compact(t) == TreeOf(style, v)
  {
    ws, t := "", TreeOf(style, v);
    assert ws + JsonText(t) == JsonText(t);
    if v.Obj? {
      assert MemberNames(v.members) == [];
    }
  }

  /** The closing bracket on a line of its own. */
  lemma {:induction false} ArrayIsTree(style: Style, document: string, indent: string, v: Value) returns (ws: string, t: Json)
    requires !style.yaml && AllSpaces(indent) && ArraysWithin(v, MAX_SIZE)
    requires v.Arr? && !IsSimple(v) && IsMultiLine(style, v)
    ensures Writes(document, Styled(style, document, indent, v), ws, t)
    ensures Compact(t) == TreeOf(style, v)
    decreases !v.Null?, v, 1, Size(v.items) + 1
  {
    var n := Size(v.items);
    assert n == Extent(v.items) == Count(v.items);
    IndentDeeper(indent);
    ws := WriteIndentAddsSpaces(document, indent);
    var open := WriteIndent(document, indent) + "[";
    hide IsMultiLine, ArraysWithin, WriteIndent, Extent, StyledElems, ElemsText, CompactElems, SpacedElems, ElemTrees;
    var elems := ElemsAreTrees(style, open, indent + INDENT, v, 0, n);
    var inner := StyledElems(style, open, indent + INDENT, v, 0, n);
    var pad := WriteIndentAddsSpaces(inner, indent);
    t := JArray(elems, pad);
    Assoc(inner, pad, "]");
    assert inner + (pad + "]") == open + ElemsText(elems, pad);
    Assoc(document + ws, "[", ElemsText(elems, pad));
    Assoc(document, ws, JsonText(t));
  }

  lemma {:induction false} ElemsAreTrees(style: Style, document: string, indent: string, v: Value, i: nat, n: nat) returns (elems: seq<Elem>)
    requires !style.yaml && AllSpaces(indent) && v.Arr? && ArraysWithin(v, MAX_SIZE) && i < n
    ensures forall pad :: StyledElems(style, document, indent, v, i, n) + (pad + "]") == document + ElemsText(elems, pad)
    ensures SpacedElems(elems) && CompactElems(elems) == ElemTrees(style, v, i, n)
    decreases !v.Null?, v, 1, n - i
  {
    var child := ElementAt(v.items, i);
    assert ArraysWithin(child, MAX_SIZE);
    var ws1 := WriteIndentAddsSpaces(document, indent);
    hide Styled, WriteIndent, ArraysWithin, Compact, TreeOf, JsonText, Spaced;
    var ws2, t := StyledIsTree(style, WriteIndent(document, indent), indent, child);
    var written := Styled(style, WriteIndent(document, indent), indent, child);
    var e := Elem(ws1 + ws2, t, "");
    var rest: seq<Elem> := [];
    if i + 1 < n {
      rest := ElemsAreTrees(style, written + ",", indent, v, i + 1, n);
    }
    elems := [e] + rest;
    assert elems[1..] == rest;
    forall pad ensures StyledElems(style, document, indent, v, i, n) + (pad + "]") == document + ElemsText(elems, pad) {
      var more := MoreElemsText(rest, pad);
      assert StyledElems(style, document, indent, v, i, n) + (pad + "]") == written + more by {
        if rest != [] { Assoc(written, ",", ElemsText(rest, pad)); }
      }
      ElemInPlace(document, ws1, ws2, JsonText(t), more);
    }
  }

  lemma ElemInPlace(document: string, ws1: string, ws2: string, text: string, more: string)
    ensures (document + ws1) + (ws2 + text) + more == document + ((ws1 + ws2) + (text + ("" + more)))
  {
    assert "" + more == more;
    Assoc(ws1 + ws2, text, more);
    Assoc(document, (ws1 + ws2) + text, more);
    Assoc(document, ws1 + ws2, text);
    Assoc(document, ws1, ws2);
    Assoc(document + ws1, ws2, text);
  }

  /** The whole array on one line. */
  lemma LineIsTree(style: Style, document: string, indent: string, v: Value) returns (ws: string, t: Json)
    requires v.Arr? && !IsSimple(v) && !IsMultiLine(style, v)
    ensures Writes(document, Styled(style, document, indent, v), ws, t)
    ensures Compact(t) == TreeOf(style, v)
  {
    var n := Size(v.items);
    StyledLine(style, document, indent, v);
    LineElements(style, v);
    hide IsMultiLine, Joined, ElemsText, CompactElems, SpacedElems, ElemTrees, Count, Size, Styled;
    var elems := JoinedIsElems(style, v, 0, n);
    ws, t := "", JArray(elems, " ");
    assert "" + JsonText(t) == JsonText(t);
    assert " " + (Joined(style, v, 0, n) + " ]") == ElemsText(elems, " ");
    Assoc("[", " ", Joined(style, v, 0, n) + " ]");
    assert "[ " + (Joined(style, v, 0, n) + " ]") == JsonText(t);
  }

  lemma {:induction false} JoinedIsElems(style: Style, v: Value, i: nat, n: nat) returns (elems: seq<Elem>)
    requires v.Arr? && i < n && forall k :: i <= k < n ==> IsSimple(ElementAt(v.items, k))
    ensures (if i == 0 then " " + (Joined(style, v, i, n) + " ]") else Joined(style, v, i, n) + " ]")
         == (if i == 0 then ElemsText(elems, " ") else MoreElemsText(elems, " "))
    ensures SpacedElems(elems) && CompactElems(elems) == ElemTrees(style, v, i, n)
    decreases n - i
  {
    hide JsonText, Compact, TreeOf, IsSimple, Plain, Styled;
    var child := ElementAt(v.items, i);
    var _, t := SimpleIsTree(style, "", "", child);
    var text := Plain(style, child);
    var rest: seq<Elem> := [];
    if i + 1 < n {
      rest := JoinedIsElems(style, v, i + 1, n);
    } else {
      assert " " + "]" == " ]" == "" + " ]";
    }
    elems := [Elem(" ", t, "")] + rest;
    assert elems[1..] == rest;
    LineElemInPlace(text, Joined(style, v, i + 1, n), MoreElemsText(rest, " "));
    assert ElemsText(elems, " ") == " " + (text + ("" + MoreElemsText(rest, " ")));
  }

  lemma LineElemInPlace(text: string, joined: string, more: string)
    requires joined + " ]" == more
    ensures " " + ((text + joined) + " ]") == " " + (text + ("" + more))
    ensures (", " + (text + joined)) + " ]" == "," + (" " + (text + ("" + more)))
  {
    assert "" + more == more;
    Assoc(text, joined, " ]");
    Assoc(",", " ", text + more);
    Assoc(", ", text + joined, " ]");
    assert "," + " " == ", ";
  }

  lemma {:induction false} ObjectIsTree(style: Style, document: string, indent: string, v: Value) returns (ws: string, t: Json)
    requires !style.yaml && AllSpaces(indent) && ArraysWithin(v, MAX_SIZE) && v.Obj? && !IsSimple(v)
    ensures Writes(document, Styled(style, document, indent, v), ws, t)
    ensures Compact(t) == TreeOf(style, v)
    decreases !v.Null?, v, 1, |MemberNames(v.members)| + 1
  {
    hide Styled, ArraysWithin, WriteIndent, StyledMembers, MembersText, CompactMembers, SpacedMembers, MemberTrees, MemberNames,
         AllSpaces;
    var names := MemberNames(v.members);
    assert v.members.Keys != {} && names != [];
    StyledObject(style, document, indent, v);
    IndentDeeper(indent);
    ws := WriteIndentAddsSpaces(document, indent);
    var open := WriteIndent(document, indent) + "{";
    var members := MembersAreTrees(style, open, indent + INDENT, v, names);
    var inner := StyledMembers(style, open, indent + INDENT, v, names);
    var pad := WriteIndentAddsSpaces(inner, indent);
    t := JObject(members, pad);
    Assoc(inner, pad, "}");
    assert inner + (pad + "}") == open + MembersText(members, pad);
    Assoc(document + ws, "{", MembersText(members, pad));
    Assoc(document, ws, JsonText(t));
  }

  lemma {:induction false} MembersAreTrees(style: Style, document: string, indent: string, v: Value, names: seq<CString>)
    returns (members: seq<Member>)
    requires AllSpaces(indent) && v.Obj? && ArraysWithin(v, MAX_SIZE) && names != []
    requires !style.yaml && forall name :: name in names ==> name in v.members
    ensures forall pad :: StyledMembers(style, document, indent, v, names) + (pad + "}") == document + MembersText(members, pad)
    ensures SpacedMembers(members) && CompactMembers(members) == MemberTrees(style, v, names)
    decreases !v.Null?, v, 1, |names|
  {
    var child := v.members[names[0]];
    assert ArraysWithin(child, MAX_SIZE);
    var ws1 := WriteIndentAddsSpaces(document, indent);
    hide Styled, WriteIndent, ArraysWithin, Compact, TreeOf, JsonText, Spaced, StringText, QuoteItems, AllSpaces;
    var quoted := StringText(QuoteItems(names[0]));
    var name := WriteIndent(document, indent) + quoted + " : ";
    var ws2, t := StyledIsTree(style, name, indent, child);
    var written := Styled(style, name, indent, child);
    assert AllSpaces(" " + ws2) && AllSpaces(" ") && AllSpaces("") by { SpaceAndSpaces(ws2); }
    var m := Member(ws1, QuoteItems(names[0]), " ", " " + ws2, t, "");
    var rest: seq<Member> := [];
    if |names| > 1 {
      rest := MembersAreTrees(style, written + ",", indent, v, names[1..]);
    }
    members := [m] + rest;
    assert members[1..] == rest;
    forall pad ensures StyledMembers(style, document, indent, v, names) + (pad + "}") == document + MembersText(members, pad) {
      var more := MoreMembersText(rest, pad);
      assert StyledMembers(style, document, indent, v, names) + (pad + "}") == written + more by {
        if rest != [] { Assoc(written, ",", MembersText(rest, pad)); }
      }
      StyledMemberInPlace(document, ws1, quoted, ws2, JsonText(t), more);
    }
  }

  lemma SpaceAndSpaces(ws: string)
    requires AllSpaces(ws)
    ensures AllSpaces(" " + ws) && AllSpaces(" ") && AllSpaces("")
  {
  }

  lemma StyledMemberInPlace(document: string, ws1: string, quoted: string, ws2: string, text: string, more: string)
    ensures (document + ws1 + quoted + " : ") + (ws2 + text) + more
         == document + (ws1 + (quoted + (" " + (":" + ((" " + ws2) + (text + ("" + more)))))))
  {
    assert "" + more == more;
    var tail := text + more;
    Assoc(document + ws1 + quoted + " : ", ws2 + text, more);
    Assoc(ws2, text, more);
    assert " : " + (ws2 + tail) == " " + (":" + ((" " + ws2) + tail));
    Assoc(document + ws1 + quoted, " : ", ws2 + tail);
    Assoc(document + ws1, quoted, " : " + (ws2 + tail));
    Assoc(document, ws1, quoted + (" : " + (ws2 + tail)));
    Assoc(document + ws1 + quoted + " : ", ws2, tail);
  }
}
