// The texts both writers are meant to print, stated on values alone: the compact one, and the pretty
// one with the white space of every node given by its depth.
module Layout {
  import opened Text
  import opened Values
  import opened Numbers
  import opened Strings
  import opened Quoting
  import opened Parser
  import opened Grammar
  import opened Printing
  import opened Whitespace
  import opened FastWriters
  import opened Styling

  /** n blanks. */
  ghost function Blanks(n: nat): (s: string)
    ensures |s| == n && forall k :: 0 <= k < n ==> s[k] == ' '
  {
    if n == 0 then "" else Blanks(n - 1) + " "
  }

  /** A new line at this depth. */
  ghost function Line(depth: nat): string {
    "\n" + Blanks(3 * depth)
  }

  /** Neither an array nor an object with something in it. */
  ghost predicate Flat(v: Value) {
    (v.Arr? ==> v.items == map[]) && (v.Obj? ==> v.members == map[])
  }

  ghost function FlatText(style: Style, v: Value): string
    requires Flat(v)
  {
    match v
    case Null => "null"
    case Int(i) => IntegerText(i)
    case UInt(u) => IntegerText(u)
    case Real(r) => style.show(r)
    case Str(s) => StringText(QuoteItems(s))
    case Bool(b) => if b then "true" else "false"
    case Arr(_) => "[]"
    case Obj(_) => "{}"
  }

  // ---------- the compact text ----------

  ghost function CompactText(style: Style, v: Value): string
    decreases !v.Null?, v, 1, 0
  {
    if v.Arr? then "[" + (CompactItems(style, v, 0, Extent(v.items)) + "]")
    else if v.Obj? then "{" + (CompactMembers(style, v, MemberNames(v.members)) + "}")
    else FlatText(style, v)
  }

  ghost function CompactItems(style: Style, v: Value, i: nat, n: nat): string
    requires v.Arr? && i <= n
    decreases !v.Null?, v, 0, n - i
  {
    if i == n then ""
    else CompactText(style, ElementAt(v.items, i)) + (if i + 1 == n then "" else "," + CompactItems(style, v, i + 1, n))
  }

  ghost function CompactMembers(style: Style, v: Value, names: seq<CString>): string
    requires v.Obj? && forall name :: name in names ==> name in v.members
    decreases !v.Null?, v, 0, |names|
  {
    if names == [] then ""
    else StringText(QuoteItems(names[0])) + ((if style.yaml then ": " else ":") + (CompactText(style, v.members[names[0]])
           + (if |names| == 1 then "" else "," + CompactMembers(style, v, names[1..]))))
  }

  lemma FlatIsTree(style: Style, v: Value)
    requires !v.Arr? && !v.Obj?
    ensures JsonText(TreeOf(style, v)) == FlatText(style, v)
  {
    match v
    case Int(i) => NumberTreeText(i);
    case UInt(u) => NumberTreeText(u);
    case _ =>
  }

  lemma EmptyIsTree(style: Style, v: Value)
    requires Flat(v) && (v.Arr? || v.Obj?)
    ensures JsonText(TreeOf(style, v)) == FlatText(style, v)
  {
    if v.Arr? {
      assert Extent(v.items) == 0 && Count(v.items) == 0;
    } else {
      assert MemberNames(v.members) == [];
    }
  }

  /** What the compact writer prints is this text. */
  lemma {:induction false} CompactIsTree(style: Style, v: Value)
    requires ArraysWithin(v, MAX_INT)
    ensures JsonText(TreeOf(style, v)) == CompactText(style, v)
    decreases !v.Null?, v, 1, 0
  {
    if v.Arr? {
      CountIsExtent(v.items);
      ArrayTreeText(style, v);
      assert Extent(v.items) <= MAX_INT;
      hide JsonText, TreeOf, CompactItems, ElemTrees, ElemsText, ArraysWithin, Count, Extent;
      CompactItemsAreTrees(style, v, 0, Extent(v.items));
    } else if v.Obj? {
      ObjectTreeText(style, v);
      hide JsonText, TreeOf, CompactMembers, MemberTrees, MembersText, ArraysWithin, MemberNames;
      CompactMembersAreTrees(style, v, MemberNames(v.members));
    } else {
      FlatIsTree(style, v);
    }
  }

  lemma ArrayTreeText(style: Style, v: Value)
    requires v.Arr?
    ensures JsonText(TreeOf(style, v)) == "[" + ElemsText(ElemTrees(style, v, 0, Count(v.items)), "")
  {
    ArrayTree(style, v);
    hide TreeOf, ElemTrees, ElemsText;
  }

  lemma {:induction false} CompactItemsAreTrees(style: Style, v: Value, i: nat, n: nat)
    requires v.Arr? && ArraysWithin(v, MAX_INT) && i <= n
    ensures ElemsText(ElemTrees(style, v, i, n), "") == CompactItems(style, v, i, n) + "]"
    decreases !v.Null?, v, 0, n - i
  {
    if i < n {
      var child := ElementAt(v.items, i);
      assert ArraysWithin(child, MAX_INT);
      hide JsonText, TreeOf, CompactText, ArraysWithin, ElemTrees, ElemsText;
      CompactIsTree(style, child);
      CompactItemsAreTrees(style, v, i + 1, n);
      FirstElemTree(style, v, i, n);
      FirstElemText(Elem("", TreeOf(style, child), ""), ElemTrees(style, v, i + 1, n));
      var text, rest := CompactText(style, child), CompactItems(style, v, i + 1, n);
      if i + 1 < n {
        assert text + ("," + (rest + "]")) == text + ("," + rest) + "]";
      } else {
        assert text + "" == text;
      }
    } else {
      assert "" + "]" == "]";
    }
  }

  lemma FirstElemText(e: Elem, rest: seq<Elem>)
    requires e.before == e.after == ""
    ensures ElemsText([e] + rest, "") == JsonText(e.value) + if rest == [] then "]" else "," + ElemsText(rest, "")
  {
    hide JsonText;
    assert ([e] + rest)[1..] == rest;
    var more := MoreElemsText(rest, "");
    assert more == if rest == [] then "]" else "," + ElemsText(rest, "");
    assert "" + (JsonText(e.value) + ("" + more)) == JsonText(e.value) + more;
  }

  lemma {:induction false} CompactMembersAreTrees(style: Style, v: Value, names: seq<CString>)
    requires v.Obj? && ArraysWithin(v, MAX_INT) && forall name :: name in names ==> name in v.members
    ensures MembersText(MemberTrees(style, v, names), "") == CompactMembers(style, v, names) + "}"
    decreases !v.Null?, v, 0, |names|
  {
    if names != [] {
      var child, rest := v.members[names[0]], names[1..];
      assert ArraysWithin(child, MAX_INT);
      hide JsonText, TreeOf, CompactText, ArraysWithin, MembersText, StringText, QuoteItems;
      CompactIsTree(style, child);
      CompactMembersAreTrees(style, v, rest);
      var m := Member("", QuoteItems(names[0]), "", if style.yaml then " " else "", TreeOf(style, child), "");
      var trees := MemberTrees(style, v, rest);
      assert MemberTrees(style, v, names) == [m] + trees;
      FirstMemberText(m, trees);
      var name, colon, text := StringText(QuoteItems(names[0])), (if style.yaml then ": " else ":"), CompactText(style, child);
      assert ":" + m.beforeValue == colon;
      MemberTail(name, colon, text, CompactMembers(style, v, rest), trees == []);
    } else {
      assert "" + "}" == "}";
    }
  }

  lemma MemberTail(name: string, colon: string, text: string, more: string, last: bool)
    ensures name + (colon + (text + (if last then "}" else "," + (more + "}"))))
         == name + (colon + (text + (if last then "" else "," + more))) + "}"
  {
    var tail := if last then "" else "," + more;
    assert (if last then "}" else "," + (more + "}")) == tail + "}";
    assert text + (tail + "}") == (text + tail) + "}";
    assert colon + ((text + tail) + "}") == (colon + (text + tail)) + "}";
  }

  lemma FirstMemberText(m: Member, rest: seq<Member>)
    requires m.before == m.afterName == m.after == ""
    ensures MembersText([m] + rest, "")
         == StringText(m.name) + ((":" + m.beforeValue) + (JsonText(m.value) + if rest == [] then "}" else "," + MembersText(rest, "")))
  {
    hide JsonText, StringText;
    assert ([m] + rest)[1..] == rest;
    var more := MoreMembersText(rest, "");
    assert more == if rest == [] then "}" else "," + MembersText(rest, "");
    var value := JsonText(m.value) + more;
    assert JsonText(m.value) + ("" + more) == value;
    assert ":" + (m.beforeValue + value) == (":" + m.beforeValue) + value;
    assert "" + (StringText(m.name) + ("" + ((":" + m.beforeValue) + value))) == StringText(m.name) + ((":" + m.beforeValue) + value);
  }

  // ---------- the pretty text ----------

  /** The elements of an array on one line. */
  ghost function LineText(style: Style, v: Value): string
    requires v.Arr? && forall k :: k in v.items ==> Flat(v.items[k])
  {
    "[ " + (LineItems(style, v, 0, Extent(v.items)) + " ]")
  }

  ghost function LineItems(style: Style, v: Value, i: nat, n: nat): string
    requires v.Arr? && (forall k :: k in v.items ==> Flat(v.items[k])) && i <= n
    decreases n - i
  {
    if i == n then ""
    else FlatText(style, ElementAt(v.items, i)) + if i + 1 == n then "" else ", " + LineItems(style, v, i + 1, n)
  }

  /** An array is on one line if it has fewer than 25 elements, none of them a container with something in it, and
      the line is shorter than 74. */
  ghost predicate OnOneLine(style: Style, v: Value)
    requires v.Arr?
  {
    Extent(v.items) < 25 && (forall k :: k in v.items ==> Flat(v.items[k])) && |LineText(style, v)| < 74
  }

  /** The text of v at a depth: every member and every element of an array of several lines on a line of its own one
      level deeper, and the closing bracket on a line of its own at its depth. */
  ghost function Pretty(style: Style, v: Value, depth: nat): string
    decreases !v.Null?, v, 1, 0
  {
    if Flat(v) then FlatText(style, v)
    else if v.Obj? then "{" + (PrettyMembers(style, v, MemberNames(v.members), depth + 1) + (Line(depth) + "}"))
    else if OnOneLine(style, v) then LineText(style, v)
    else "[" + (PrettyItems(style, v, 0, Extent(v.items), depth + 1) + (Line(depth) + "]"))
  }

  ghost function PrettyItems(style: Style, v: Value, i: nat, n: nat, depth: nat): string
    requires v.Arr? && i <= n
    decreases !v.Null?, v, 0, n - i
  {
    if i == n then ""
    else Line(depth) + (Pretty(style, ElementAt(v.items, i), depth)
         + if i + 1 == n then "" else "," + PrettyItems(style, v, i + 1, n, depth))
  }

  ghost function PrettyMembers(style: Style, v: Value, names: seq<CString>, depth: nat): string
    requires v.Obj? && forall name :: name in names ==> name in v.members
    decreases !v.Null?, v, 0, |names|
  {
    if names == [] then ""
    else Line(depth) + (StringText(QuoteItems(names[0])) + (" : " + (Pretty(style, v.members[names[0]], depth)
         + if |names| == 1 then "" else "," + PrettyMembers(style, v, names[1..], depth))))
  }

  /** s ends, and neither in a blank nor in a line break. */
  ghost predicate EndsInInk(s: string) {
    s != "" && s[|s| - 1] != ' ' && s[|s| - 1] != '\n'
  }

  /** The texts of the doubles in v do. */
  ghost predicate Inked(style: Style, v: Value) {
    match v
    case Real(r) => EndsInInk(style.show(r))
    case Arr(items) => forall k :: k in items ==> Inked(style, items[k])
    case Obj(members) => forall k :: k in members ==> Inked(style, members[k])
    case _ => true
  }

  lemma {:induction false} DecimalEndsInInk(n: nat)
    ensures EndsInInk(Decimal(n))
  {
    assert AllDigits(Decimal(n));
  }

  lemma FlatEndsInInk(style: Style, v: Value)
    requires Flat(v) && Inked(style, v)
    ensures EndsInInk(FlatText(style, v))
  {
    match v
    case Int(i) => DecimalEndsInInk(if i < 0 then -(i as int) else i);
    case UInt(u) => DecimalEndsInInk(u);
    case _ =>
  }

  lemma PrettyEndsInInk(style: Style, v: Value, depth: nat)
    requires Inked(style, v)
    ensures EndsInInk(Pretty(style, v, depth))
  {
    if Flat(v) {
      FlatEndsInInk(style, v);
    } else {
      hide FlatText, PrettyMembers, PrettyItems, LineItems, Line;
    }
  }

  // ---------- what the pretty writer prints is that text ----------

  /** What stands in the document lets a bracket follow without a line break: nothing, or a blank. */
  ghost predicate Opens(document: string, depth: nat) {
    if document == "" then depth == 0 else document[|document| - 1] == ' '
  }

  lemma IndentOf(depth: nat)
    ensures Blanks(3 * depth) + INDENT == Blanks(3 * (depth + 1))
  {
    assert Blanks(3 * depth + 1) == Blanks(3 * depth) + " ";
    assert Blanks(3 * depth + 2) == Blanks(3 * depth + 1) + " ";
    assert Blanks(3 * depth + 3) == Blanks(3 * depth + 2) + " ";
  }

  /** Behind ink a new line is begun. */
  lemma NewLine(document: string, depth: nat)
    requires EndsInInk(document)
    ensures WriteIndent(document, Blanks(3 * depth)) == document + Line(depth)
    ensures depth > 0 ==> Opens(document + Line(depth), depth)
  {
    assert document + ['\n'] + Blanks(3 * depth) == document + Line(depth);
  }

  lemma InkAppended(a: string, b: string)
    requires EndsInInk(b)
    ensures EndsInInk(a + b)
  {
  }

  lemma SizeIsExtent(v: Value)
    requires v.Arr? && ArraysWithin(v, MAX_SIZE)
    ensures Size(v.items) == Extent(v.items)
    ensures v.items == map[] ==> Extent(v.items) == 0
  {
  }

  lemma FlatIsSimple(style: Style, v: Value)
    requires ArraysWithin(v, MAX_SIZE)
    ensures Flat(v) <==> IsSimple(v)
    ensures Flat(v) ==> Plain(style, v) == FlatText(style, v)
    ensures v.Arr? ==> Size(v.items) == Extent(v.items)
  {
    hide JsonText, TreeOf, FlatText, Extent, Size, ArraysWithin;
    if v.Arr? {
      SizeIsExtent(v);
      if v.items != map[] {
        var k :| k in v.items;
        assert Extent(v.items) > k;
      }
    }
    if Flat(v) {
      if v.Arr? || v.Obj? {
        EmptyIsTree(style, v);
      } else {
        FlatIsTree(style, v);
      }
    }
  }

  lemma {:induction false} JoinedIsLine(style: Style, v: Value, i: nat, n: nat)
    requires v.Arr? && ArraysWithin(v, MAX_SIZE) && (forall k :: k in v.items ==> Flat(v.items[k])) && i <= n
    ensures Joined(style, v, i, n) == (if 0 < i < n then ", " else "") + LineItems(style, v, i, n)
    decreases n - i
  {
    if i < n {
      var child := ElementAt(v.items, i);
      assert ArraysWithin(child, MAX_SIZE);
      FlatIsSimple(style, child);
      JoinedIsLine(style, v, i + 1, n);
      hide Plain, FlatText;
      var text, rest := Plain(style, child), LineItems(style, v, i + 1, n);
      assert ", " + (text + (", " + rest)) == ", " + text + (", " + rest);
      assert "" + (text + rest) == text + rest && text + "" == text;
    }
  }

  /** The layouts agree. */
  lemma OneLineIsNotMulti(style: Style, v: Value)
    requires v.Arr? && ArraysWithin(v, MAX_SIZE) && !Flat(v)
    ensures OnOneLine(style, v) <==> !IsMultiLine(style, v)
    ensures OnOneLine(style, v) ==> LineText(style, v) == "[ " + (Joined(style, v, 0, Size(v.items)) + " ]")
  {
    var n := Extent(v.items);
    FlatIsSimple(style, v);
    AllFlat(style, v);
    if forall k :: k in v.items ==> Flat(v.items[k]) {
      JoinedIsLine(style, v, 0, n);
      JoinedLength(style, v, 0, n);
      assert "" + LineItems(style, v, 0, n) == LineItems(style, v, 0, n);
    }
    hide Joined, LineItems, Flat, Extent, ArraysWithin, IsSimple;
  }

  lemma AllFlat(style: Style, v: Value)
    requires v.Arr? && ArraysWithin(v, MAX_SIZE)
    ensures (forall k :: k in v.items ==> Flat(v.items[k])) <==> !HasNested(v.items)
  {
    var n := Extent(v.items);
    FlatIsSimple(style, v);
    forall k | k in v.items ensures Flat(v.items[k]) <==> IsSimple(ElementAt(v.items, k)) {
      FlatIsSimple(style, v.items[k]);
    }
    hide Flat, IsSimple;
    if !HasNested(v.items) {
      forall k | k in v.items ensures Flat(v.items[k]) {
        assert k < n;
        assert IsSimple(ElementAt(v.items, k));
      }
    } else {
      var k :| 0 <= k < n && !IsSimple(ElementAt(v.items, k));
      assert k in v.items || ElementAt(v.items, k) == Null;
      assert IsSimple(Null);
    }
  }

  /** The pretty writer prints the pretty text behind a document that lets it start on the same line. */
  lemma {:induction false} StyledIsPretty(style: Style, document: string, v: Value, depth: nat)
    requires ArraysWithin(v, MAX_SIZE) && Inked(style, v) && Opens(document, depth)
    ensures Styled(style, document, Blanks(3 * depth), v) == document + Pretty(style, v, depth)
    decreases !v.Null?, v, 2, 0
  {
    FlatIsSimple(style, v);
    if Flat(v) {
      hide Plain, FlatText;
    } else if v.Obj? {
      ObjectIsPretty(style, document, v, depth);
    } else {
      OneLineIsNotMulti(style, v);
      if OnOneLine(style, v) {
        StyledLine(style, document, Blanks(3 * depth), v);
      } else {
        ArrayIsPretty(style, document, v, depth);
      }
    }
  }

  lemma Bracketed(document: string, open: string, inner: string, line: string, close: string)
    ensures document + open + inner + line + close == document + (open + (inner + (line + close)))
  {
    Assoc(document + open, inner, line + close);
    Assoc(document + open + inner, line, close);
    Assoc(document, open, inner + (line + close));
  }

  lemma OpensHere(document: string, depth: nat)
    requires Opens(document, depth)
    ensures WriteIndent(document, Blanks(3 * depth)) == document
  {
  }

  lemma {:induction false} ObjectIsPretty(style: Style, document: string, v: Value, depth: nat)
    requires v.Obj? && !IsSimple(v) && !Flat(v)
    requires ArraysWithin(v, MAX_SIZE) && Inked(style, v) && Opens(document, depth)
    ensures Styled(style, document, Blanks(3 * depth), v) == document + Pretty(style, v, depth)
    decreases !v.Null?, v, 1, 0
  {
    hide Styled, Pretty, PrettyMembers, StyledMembers, ArraysWithin, Inked, MemberNames, WriteIndent, Line, Opens, IsSimple, Flat;
    var names, open := MemberNames(v.members), document + "{";
    NonEmptyNames(v);
    StyledObject(style, document, Blanks(3 * depth), v);
    PrettyObject(style, v, depth);
    OpensHere(document, depth);
    IndentOf(depth);
    InkAppended(document, "{");
    MembersArePretty(style, open, v, names, depth + 1);
    var inner := PrettyMembers(style, v, names, depth + 1);
    NewLine(open + inner, depth);
    Bracketed(document, "{", inner, Line(depth), "}");
  }

  lemma PrettyObject(style: Style, v: Value, depth: nat)
    requires v.Obj? && !Flat(v)
    ensures Pretty(style, v, depth)
         == "{" + (PrettyMembers(style, v, MemberNames(v.members), depth + 1) + (Line(depth) + "}"))
  {
    hide PrettyMembers, MemberNames, Line;
  }

  lemma NonEmptyNames(v: Value)
    requires v.Obj? && !Flat(v)
    ensures MemberNames(v.members) != []
  {
    var k :| k in v.members;
    assert k in MemberNames(v.members);
  }

  lemma {:induction false} MembersArePretty(style: Style, document: string, v: Value, names: seq<CString>, depth: nat)
    requires v.Obj? && (forall name :: name in names ==> name in v.members) && names != [] && depth > 0
    requires ArraysWithin(v, MAX_SIZE) && Inked(style, v) && EndsInInk(document)
    ensures StyledMembers(style, document, Blanks(3 * depth), v, names) == document + PrettyMembers(style, v, names, depth)
    ensures EndsInInk(document + PrettyMembers(style, v, names, depth))
    decreases !v.Null?, v, 0, |names|
  {
    var child, rest := v.members[names[0]], names[1..];
    assert ArraysWithin(child, MAX_SIZE) && Inked(style, child);
    hide Styled, Pretty, ArraysWithin, Inked, WriteIndent, Line, StringText, QuoteItems, MemberNames;
    NewLine(document, depth);
    var quoted, text := StringText(QuoteItems(names[0])), Pretty(style, child, depth);
    var name := document + Line(depth) + quoted + " : ";
    assert name[|name| - 1] == ' ';
    StyledIsPretty(style, name, child, depth);
    PrettyEndsInInk(style, child, depth);
    InkAppended(name, text);
    if |names| == 1 {
      MemberInLine(document, Line(depth), quoted, text, "");
      assert text + "" == text;
    } else {
      InkAppended(name + text, ",");
      MembersArePretty(style, name + text + ",", v, rest, depth);
      var more := PrettyMembers(style, v, rest, depth);
      MemberInLine(document, Line(depth), quoted, text, "," + more);
      Assoc(name + text, ",", more);
    }
  }

  lemma MemberInLine(document: string, line: string, quoted: string, text: string, more: string)
    ensures document + line + quoted + " : " + text + more == document + (line + (quoted + (" : " + (text + more))))
  {
    Assoc(document + line + quoted + " : ", text, more);
    Assoc(document + line + quoted, " : ", text + more);
    Assoc(document + line, quoted, " : " + (text + more));
    Assoc(document, line, quoted + (" : " + (text + more)));
  }

  lemma {:induction false} ArrayIsPretty(style: Style, document: string, v: Value, depth: nat)
    requires v.Arr? && !IsSimple(v) && !Flat(v) && IsMultiLine(style, v) && !OnOneLine(style, v)
    requires ArraysWithin(v, MAX_SIZE) && Inked(style, v) && Opens(document, depth)
    ensures Styled(style, document, Blanks(3 * depth), v) == document + Pretty(style, v, depth)
    decreases !v.Null?, v, 1, 0
  {
    hide Flat, IsSimple, Styled, Pretty, PrettyItems, StyledElems, ArraysWithin, Inked, Extent, Size, WriteIndent, Line,
         IsMultiLine, OnOneLine, Opens;
    var n, open := Extent(v.items), document + "[";
    FlatIsSimple(style, v);
    PrettyLines(style, v, depth);
    StyledLines(style, document, Blanks(3 * depth), v);
    OpensHere(document, depth);
    IndentOf(depth);
    InkAppended(document, "[");
    ItemsArePretty(style, open, v, 0, n, depth + 1);
    var inner := PrettyItems(style, v, 0, n, depth + 1);
    NewLine(open + inner, depth);
    Bracketed(document, "[", inner, Line(depth), "]");
  }

  lemma PrettyLines(style: Style, v: Value, depth: nat)
    requires v.Arr? && !Flat(v) && !OnOneLine(style, v)
    ensures Extent(v.items) > 0
    ensures Pretty(style, v, depth) == "[" + (PrettyItems(style, v, 0, Extent(v.items), depth + 1) + (Line(depth) + "]"))
  {
    var k :| k in v.items;
    assert k < Extent(v.items);
    hide Extent, PrettyItems, OnOneLine, Line;
  }

  lemma StyledLines(style: Style, document: string, indent: string, v: Value)
    requires v.Arr? && !IsSimple(v) && IsMultiLine(style, v)
    ensures Styled(style, document, indent, v)
         == WriteIndent(StyledElems(style, WriteIndent(document, indent) + "[", indent + INDENT, v, 0, Size(v.items)), indent) + "]"
  {
    hide StyledElems, WriteIndent, IsMultiLine, Extent;
  }

  lemma PartsInked(style: Style, v: Value, i: nat)
    requires v.Arr? && ArraysWithin(v, MAX_SIZE) && Inked(style, v)
    ensures ArraysWithin(ElementAt(v.items, i), MAX_SIZE) && Inked(style, ElementAt(v.items, i))
  {
  }

  lemma {:induction false} ItemsArePretty(style: Style, document: string, v: Value, i: nat, n: nat, depth: nat)
    requires v.Arr? && i < n && depth > 0
    requires ArraysWithin(v, MAX_SIZE) && Inked(style, v) && EndsInInk(document)
    ensures StyledElems(style, document, Blanks(3 * depth), v, i, n) == document + PrettyItems(style, v, i, n, depth)
    ensures EndsInInk(document + PrettyItems(style, v, i, n, depth))
    decreases !v.Null?, v, 0, n - i
  {
    hide Styled, Pretty, ArraysWithin, Inked, WriteIndent, Line, EndsInInk, Opens;
    var child := ElementAt(v.items, i);
    PartsInked(style, v, i);
    NewLine(document, depth);
    var line, text := document + Line(depth), Pretty(style, child, depth);
    StyledIsPretty(style, line, child, depth);
    PrettyEndsInInk(style, child, depth);
    InkAppended(line, text);
    Assoc(document, Line(depth), text);
    if i + 1 == n {
      assert text + "" == text;
    } else {
      InkAppended(line + text, ",");
      ItemsArePretty(style, line + text + ",", v, i + 1, n, depth);
      var more := PrettyItems(style, v, i + 1, n, depth);
      Assoc(line + text, ",", more);
      Assoc(line, text, "," + more);
      Assoc(document, Line(depth), text + ("," + more));
    }
  }

  /** The whole document. */
  lemma PrettyDocument(style: Style, v: Value)
    requires ArraysWithin(v, MAX_SIZE) && Inked(style, v)
    ensures Styled(style, "", "", v) == Pretty(style, v, 0)
  {
    hide Styled, Pretty, Inked, ArraysWithin;
    assert Blanks(3 * 0) == "";
    StyledIsPretty(style, "", v, 0);
    assert "" + Pretty(style, v, 0) == Pretty(style, v, 0);
  }
}
