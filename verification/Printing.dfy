// The JSON text the compact writer prints, as a tree of the grammar, and what that tree denotes.
module Printing {
  import opened Text
  import opened Values
  import opened Numbers
  import opened Strings
  import opened Quoting
  import opened Parser
  import opened Grammar

  /** The YAML flag of the compact writer, and valueToString(double). */
  datatype Style = Style(yaml: bool, show: real -> string)

  /** How many elements the loop of the compact writer prints. */
  function Count(items: map<nat, Value>): nat {
    if AsInt32(Size(items)) < 0 then 0 else AsInt32(Size(items))
  }

  ghost function NumberTree(i: int): Json {
    JNumber(Number(i < 0, Decimal(if i < 0 then -i else i), "", ""))
  }

  ghost function TreeOf(style: Style, v: Value): Json
    decreases !v.Null?, v, 2, 0
  {
    match v
    case Null => JNull
    case Int(i) => NumberTree(i)
    case UInt(u) => NumberTree(u)
    case Real(r) => JNumber(Parts(style.show(r)))
    case Str(s) => JString(QuoteItems(s))
    case Bool(b) => JBool(b)
    case Arr(items) => JArray(ElemTrees(style, v, 0, Count(items)), "")
    case Obj(members) => JObject(MemberTrees(style, v, MemberNames(members)), "")
  }

  /** The elements from index i to n. */
  ghost function ElemTrees(style: Style, v: Value, i: nat, n: nat): (elems: seq<Elem>)
    requires v.Arr?
    ensures |elems| == if i >= n then 0 else n - i
    decreases !v.Null?, v, 0, if i < n then n - i else 0
  {
    if i >= n then []
    else [Elem("", TreeOf(style, ElementAt(v.items, i)), "")] + ElemTrees(style, v, i + 1, n)
  }

  /** The members with these names. */
  ghost function MemberTrees(style: Style, v: Value, names: seq<CString>): (members: seq<Member>)
    requires v.Obj? && forall name :: name in names ==> name in v.members
    ensures |members| == |names|
    decreases !v.Null?, v, 0, |names|
  {
    if names == [] then []
    else
      [Member("", QuoteItems(names[0]), "", if style.yaml then " " else "", TreeOf(style, v.members[names[0]]), "")]
      + MemberTrees(style, v, names[1..])
  }

  // ---------- what is printed is in the grammar and denotes the normal form ----------

  /** The C library prints r as a number of the grammar with a fraction or an exponent, and reads
      that text as some number. */
  ghost predicate ShownWell(settings: Settings, style: Style, r: real) {
    var text := style.show(r);
    InGrammar(Parts(text)) && LooksDouble(text) && settings.scan(text).Some?
  }

  /** The doubles in v are shown well. */
  ghost predicate Readable(settings: Settings, style: Style, v: Value) {
    match v
    case Real(r) => ShownWell(settings, style, r)
    case Arr(items) => forall k :: k in items ==> Readable(settings, style, items[k])
    case Obj(members) => forall k :: k in members ==> Readable(settings, style, members[k])
    case _ => true
  }

  /** Values without doubles are readable. */
  lemma {:induction false} RealFreeIsReadable(settings: Settings, style: Style, v: Value)
    requires RealFree(v)
    ensures Readable(settings, style, v)
  {
    match v
    case Arr(items) =>
      forall k | k in items ensures Readable(settings, style, items[k]) {
        RealFreeIsReadable(settings, style, items[k]);
      }
    case Obj(members) =>
      forall k | k in members ensures Readable(settings, style, members[k]) {
        RealFreeIsReadable(settings, style, members[k]);
      }
    case _ =>
  }

  /** What the compact writer retains of a value: integers by magnitude, doubles as their text is
      read again, and of an array the elements its loop prints. */
  ghost function Retained(reread: real -> real, v: Value): Value
    decreases !v.Null?, v
  {
    match v
    case Int(i) => IntegerValue(i)
    case UInt(u) => IntegerValue(u)
    case Real(r) => Real(reread(r))
    case Arr(items) => Arr(map k: nat | 0 <= k < Count(items) :: Retained(reread, ElementAt(items, k)))
    case Obj(members) => Obj(map k | k in members :: Retained(reread, members[k]))
    case _ => v
  }

  /** That is the whole value if and only if every array has a size that fits an int. */
  lemma {:induction false} RetainsWholeValue(reread: real -> real, v: Value)
    ensures Retained(reread, v) == Norm(reread, v) <==> ArraysWithin(v, MAX_INT)
    decreases !v.Null?, v
  {
    if v.Arr? {
      forall k | k in v.items ensures RetainsWhole(reread, v.items[k]) {
        RetainsWholeValue(reread, v.items[k]);
      }
      RetainsWholeArray(reread, v);
    } else if v.Obj? {
      forall k | k in v.members ensures RetainsWhole(reread, v.members[k]) {
        RetainsWholeValue(reread, v.members[k]);
      }
      RetainsWholeObject(reread, v);
    }
  }

  ghost predicate RetainsWhole(reread: real -> real, v: Value) {
    Retained(reread, v) == Norm(reread, v) <==> ArraysWithin(v, MAX_INT)
  }

  lemma ArrayViews(reread: real -> real, v: Value)
    requires v.Arr?
    ensures var r := Retained(reread, v);
            r.Arr? && forall k: nat :: k in r.items <==> k < Count(v.items)
    ensures var w := Norm(reread, v);
            w.Arr? && forall k: nat :: k in w.items <==> k < Extent(v.items)
    ensures forall k: nat :: k < Count(v.items) ==> Retained(reread, v).items[k] == Retained(reread, ElementAt(v.items, k))
    ensures forall k: nat :: k < Extent(v.items) ==> Norm(reread, v).items[k] == Norm(reread, ElementAt(v.items, k))
  {
  }

  lemma CountIsExtent(items: map<nat, Value>)
    ensures Extent(items) <= MAX_INT ==> Count(items) == Extent(items)
    ensures Count(items) <= MAX_INT
  {
  }

  lemma WithinMeans(reread: real -> real, v: Value)
    requires v.Arr?
    ensures ArraysWithin(v, MAX_INT) <==>
            Extent(v.items) <= MAX_INT && forall k :: k in v.items ==> ArraysWithin(v.items[k], MAX_INT)
    ensures Retained(reread, Null) == Norm(reread, Null) == Null
  {
    hide Extent;
  }

  lemma RetainsWholeArray(reread: real -> real, v: Value)
    requires v.Arr? && forall k :: k in v.items ==> RetainsWhole(reread, v.items[k])
    ensures RetainsWhole(reread, v)
  {
    var items, n := v.items, Extent(v.items);
    ArrayViews(reread, v);
    CountIsExtent(items);
    WithinMeans(reread, v);
    hide Retained, Norm, ArraysWithin, Extent, Count;
    var r, w := Retained(reread, v).items, Norm(reread, v).items;
    if n > MAX_INT {
      assert n - 1 in w ==> MAX_INT in w;
      assert MAX_INT in w && MAX_INT !in r;
    } else if r == w {
      forall k | k in items ensures ArraysWithin(items[k], MAX_INT) {
        assert RetainsWhole(reread, items[k]) && r[k] == w[k];
      }
    } else {
      assert r.Keys == w.Keys;
      var k :| k in r && r[k] != w[k];
      assert k in items && RetainsWhole(reread, items[k]);
    }
  }

  lemma RetainsWholeObject(reread: real -> real, v: Value)
    requires v.Obj? && forall k :: k in v.members ==> RetainsWhole(reread, v.members[k])
    ensures RetainsWhole(reread, v)
  {
    var members := v.members;
    var r, w := Retained(reread, v).members, Norm(reread, v).members;
    assert r.Keys == w.Keys == members.Keys;
    assert forall k | k in members :: r[k] == Retained(reread, members[k]) && w[k] == Norm(reread, members[k]);
    assert ArraysWithin(v, MAX_INT) <==> forall k :: k in members ==> ArraysWithin(members[k], MAX_INT);
    hide Retained, Norm, ArraysWithin;
    if r == w {
      forall k | k in members ensures ArraysWithin(members[k], MAX_INT) {
        assert RetainsWhole(reread, members[k]) && r[k] == w[k];
      }
    } else {
      var k :| k in r && r[k] != w[k];
      assert RetainsWhole(reread, members[k]);
    }
  }

  /** What becomes of a double that is printed and read again. */
  ghost function Reread(settings: Settings, style: Style): real -> real {
    r => match settings.scan(style.show(r)) case Some(x) => x case None => r
  }

  lemma PartsAreDouble(settings: Settings, text: string)
    requires InGrammar(Parts(text)) && LooksDouble(text) && settings.scan(text).Some?
    ensures ValidNumber(settings, Parts(text)) && DenoteNumber(settings, Parts(text)) == Real(settings.scan(text).value)
  {
    NumberTextShape(Parts(text));
  }

  lemma PrintedNumber(settings: Settings, i: int)
    requires -TWO_63 <= i < TWO_64
    ensures ValidJson(settings, NumberTree(i)) && Denote(settings, NumberTree(i)) == IntegerValue(i)
    ensures JsonText(NumberTree(i)) == IntegerText(i)
  {
    var n := if i < 0 then -i else i;
    var digits := Decimal(n);
    LeadingZero(n);
    assert NumberTree(i) == JNumber(Number(i < 0, digits, "", ""));
    assert IntegerText(i) == (if i < 0 then "-" else "") + digits + "" + "";
    hide Decimal, Denotes, IntegerText, NumberTree, ValidNumber, DenoteNumber;
    DigitsDenote(settings, i, digits);
  }

  lemma DigitsDenote(settings: Settings, i: int, digits: string)
    requires -TWO_63 <= i < TWO_64 && AllDigits(digits) && digits != "" && (digits[0] == '0' ==> |digits| == 1)
    requires Denotes(digits) == if i < 0 then -i else i
    ensures ValidNumber(settings, Number(i < 0, digits, "", ""))
    ensures DenoteNumber(settings, Number(i < 0, digits, "", "")) == IntegerValue(i)
  {
    hide Denotes, Wraps, IntegerValue;
  }

  lemma LeadingZero(n: nat)
    ensures Decimal(n)[0] == '0' ==> |Decimal(n)| == 1
  {
  }

  lemma {:induction false} PrintedDenotes(settings: Settings, style: Style, v: Value)
    requires Readable(settings, style, v)
    ensures ValidJson(settings, TreeOf(style, v))
    ensures Denote(settings, TreeOf(style, v)) == Retained(Reread(settings, style), v)
    decreases !v.Null?, v, 2, 0
  {
    if v.Arr? {
      PrintedArray(settings, style, v);
    } else if v.Obj? {
      PrintedObject(settings, style, v);
    } else {
      PrintedScalar(settings, style, v);
    }
  }

  lemma PrintedScalar(settings: Settings, style: Style, v: Value)
    requires !v.Arr? && !v.Obj? && Readable(settings, style, v)
    ensures ValidJson(settings, TreeOf(style, v))
    ensures Denote(settings, TreeOf(style, v)) == Retained(Reread(settings, style), v)
  {
    match v
    case Null =>
    case Int(i) => PrintedNumber(settings, i);
    case UInt(u) => PrintedNumber(settings, u);
    case Str(s) => QuotedDenotes(s);
    case Bool(b) =>
    case Real(r) =>
      assert ShownWell(settings, style, r);
      PartsAreDouble(settings, style.show(r));
  }

  lemma {:induction false} PrintedArray(settings: Settings, style: Style, v: Value)
    requires v.Arr? && Readable(settings, style, v)
    ensures ValidJson(settings, TreeOf(style, v))
    ensures Denote(settings, TreeOf(style, v)) == Retained(Reread(settings, style), v)
    decreases !v.Null?, v, 1, 0
  {
    var n := Count(v.items);
    hide Readable, ValidElems, AddElems, ElemTrees;
    PrintedElems(settings, style, v, 0, map[]);
    assert map[] + RetainedElems(Reread(settings, style), v, 0, n) == Retained(Reread(settings, style), v).items;
  }

  ghost function RetainedElems(reread: real -> real, v: Value, i: nat, n: nat): map<nat, Value>
    requires v.Arr?
  {
    map k: nat | i <= k < n :: Retained(reread, ElementAt(v.items, k))
  }

  lemma RetainedElemsStep(reread: real -> real, v: Value, i: nat, n: nat, known: map<nat, Value>)
    requires v.Arr? && i < n
    ensures known[i := Retained(reread, ElementAt(v.items, i))] + RetainedElems(reread, v, i + 1, n) == known + RetainedElems(reread, v, i, n)
  {
  }

  lemma {:induction false} PrintedElems(settings: Settings, style: Style, v: Value, i: nat, known: map<nat, Value>)
    requires v.Arr? && Readable(settings, style, v) && i <= Count(v.items)
    ensures ValidElems(settings, ElemTrees(style, v, i, Count(v.items)))
    ensures AddElems(settings, ElemTrees(style, v, i, Count(v.items)), known, i) == known + RetainedElems(Reread(settings, style), v, i, Count(v.items))
    decreases !v.Null?, v, 0, Count(v.items) - i
  {
    var n := Count(v.items);
    if i == n {
      NoElemsLeft(settings, style, v, n, known);
    } else {
      var child := ElementAt(v.items, i);
      ElementIsReadable(settings, style, v, i);
      hide Denote, ValidJson, Retained, Readable, RetainedElems, ValidElems, AddElems, ElemTrees, Count, Extent, TreeOf;
      PrintedDenotes(settings, style, child);
      PrintedElems(settings, style, v, i + 1, known[i := Retained(Reread(settings, style), child)]);
      PrintedElem(settings, style, v, i, n, known);
      RetainedElemsStep(Reread(settings, style), v, i, n, known);
    }
  }

  lemma NoElemsLeft(settings: Settings, style: Style, v: Value, n: nat, known: map<nat, Value>)
    requires v.Arr?
    ensures ValidElems(settings, ElemTrees(style, v, n, n))
    ensures AddElems(settings, ElemTrees(style, v, n, n), known, n) == known + RetainedElems(Reread(settings, style), v, n, n)
  {
    assert known + RetainedElems(Reread(settings, style), v, n, n) == known;
  }

  lemma ElementIsReadable(settings: Settings, style: Style, v: Value, i: nat)
    requires v.Arr? && Readable(settings, style, v)
    ensures Readable(settings, style, ElementAt(v.items, i))
  {
  }

  /** The first element and the others. */
  lemma PrintedElem(settings: Settings, style: Style, v: Value, i: nat, n: nat, known: map<nat, Value>)
    requires v.Arr? && i < n && ValidElems(settings, ElemTrees(style, v, i + 1, n))
    requires var child := ElementAt(v.items, i);
             ValidJson(settings, TreeOf(style, child)) && Denote(settings, TreeOf(style, child)) == Retained(Reread(settings, style), child)
    ensures ValidElems(settings, ElemTrees(style, v, i, n))
    ensures AddElems(settings, ElemTrees(style, v, i, n), known, i)
         == AddElems(settings, ElemTrees(style, v, i + 1, n), known[i := Retained(Reread(settings, style), ElementAt(v.items, i))], i + 1)
  {
    hide Denote, ValidJson, Retained, TreeOf;
    var elems := ElemTrees(style, v, i, n);
    assert elems[1..] == ElemTrees(style, v, i + 1, n);
  }

  lemma {:induction false} PrintedObject(settings: Settings, style: Style, v: Value)
    requires v.Obj? && Readable(settings, style, v)
    ensures ValidJson(settings, TreeOf(style, v))
    ensures Denote(settings, TreeOf(style, v)) == Retained(Reread(settings, style), v)
    decreases !v.Null?, v, 1, 0
  {
    hide Readable, ValidMembers, AddMembers, MemberTrees, RetainedMembers;
    var names := MemberNames(v.members);
    PrintedMembers(settings, style, v, names, map[]);
    ObjectParts(settings, style, v);
    hide TreeOf, Retained, Denote, ValidJson;
    assert map[] + RetainedMembers(Reread(settings, style), v, names) == RetainedMembers(Reread(settings, style), v, names);
  }

  ghost function RetainedMembers(reread: real -> real, v: Value, names: seq<CString>): map<CString, Value>
    requires v.Obj? && forall name :: name in names ==> name in v.members
  {
    map name | name in names :: Retained(reread, v.members[name])
  }

  lemma ObjectParts(settings: Settings, style: Style, v: Value)
    requires v.Obj?
    ensures var names, trees := MemberNames(v.members), MemberTrees(style, v, MemberNames(v.members));
            && Retained(Reread(settings, style), v) == Obj(RetainedMembers(Reread(settings, style), v, names))
            && (ValidMembers(settings, trees) ==>
                  ValidJson(settings, TreeOf(style, v)) && Denote(settings, TreeOf(style, v)) == Obj(AddMembers(settings, trees, map[])))
  {
    hide ValidMembers, AddMembers, MemberTrees;
  }

  lemma RetainedMembersStep(reread: real -> real, v: Value, names: seq<CString>, known: map<CString, Value>)
    requires v.Obj? && (forall name :: name in names ==> name in v.members) && names != []
    ensures known[names[0] := Retained(reread, v.members[names[0]])] + RetainedMembers(reread, v, names[1..]) == known + RetainedMembers(reread, v, names)
  {
    assert forall x :: x in names <==> x == names[0] || x in names[1..];
  }

  lemma {:induction false} PrintedMembers(settings: Settings, style: Style, v: Value, names: seq<CString>, known: map<CString, Value>)
    requires v.Obj? && Readable(settings, style, v)
    requires forall name :: name in names ==> name in v.members
    ensures ValidMembers(settings, MemberTrees(style, v, names))
    ensures AddMembers(settings, MemberTrees(style, v, names), known) == known + RetainedMembers(Reread(settings, style), v, names)
    decreases !v.Null?, v, 0, |names|
  {
    if names == [] {
      assert known + RetainedMembers(Reread(settings, style), v, names) == known;
    } else {
      var name, rest := names[0], names[1..];
      assert Readable(settings, style, v.members[name]);
      hide Denote, ValidJson, Retained, Readable, RetainedMembers, ValidMembers, AddMembers, MemberTrees;
      PrintedDenotes(settings, style, v.members[name]);
      PrintedMembers(settings, style, v, rest, known[name := Retained(Reread(settings, style), v.members[name])]);
      PrintedMember(settings, style, v, names, known);
      RetainedMembersStep(Reread(settings, style), v, names, known);
    }
  }

  /** The first member and the others. */
  lemma PrintedMember(settings: Settings, style: Style, v: Value, names: seq<CString>, known: map<CString, Value>)
    requires v.Obj? && (forall name :: name in names ==> name in v.members) && names != []
    requires ValidMembers(settings, MemberTrees(style, v, names[1..]))
    requires var child := v.members[names[0]];
             ValidJson(settings, TreeOf(style, child)) && Denote(settings, TreeOf(style, child)) == Retained(Reread(settings, style), child)
    ensures ValidMembers(settings, MemberTrees(style, v, names))
    ensures AddMembers(settings, MemberTrees(style, v, names), known)
         == AddMembers(settings, MemberTrees(style, v, names[1..]), known[names[0] := Retained(Reread(settings, style), v.members[names[0]])])
  {
    hide Denote, ValidJson, Retained, TreeOf, QuoteItems, ItemsBytes;
    QuotedDenotes(names[0]);
    var members := MemberTrees(style, v, names);
    assert members[1..] == MemberTrees(style, v, names[1..]);
  }

  // ---------- printing again ----------

  lemma RetainedCount(reread: real -> real, items: map<nat, Value>)
    ensures Count(Retained(reread, Arr(items)).items) == Extent(Retained(reread, Arr(items)).items) == Count(items)
  {
    var n, m := Count(items), Retained(reread, Arr(items)).items;
    assert forall k: nat :: k in m <==> k < n;
    if n > 0 {
      assert n - 1 in m;
    }
  }

  /** Printing what was read back gives the same text. */
  lemma {:induction false} RetainedPrintsTheSame(style: Style, reread: real -> real, v: Value)
    requires RealFree(v)
    ensures TreeOf(style, Retained(reread, v)) == TreeOf(style, v)
    decreases !v.Null?, v, 2, 0
  {
    match v
    case Arr(items) =>
      RetainedElemsPrint(style, reread, v);
    case Obj(members) =>
      assert Retained(reread, v).members.Keys == members.Keys;
      RetainedMembersPrint(style, reread, v, MemberNames(members));
    case _ =>
  }

  lemma {:induction false} RetainedElemsPrint(style: Style, reread: real -> real, v: Value)
    requires v.Arr? && RealFree(v)
    ensures TreeOf(style, Retained(reread, v)) == TreeOf(style, v)
    decreases !v.Null?, v, 1, 0
  {
    var n := Count(v.items);
    RetainedCount(reread, v.items);
    ArrayTree(style, v);
    ArrayTree(style, Retained(reread, v));
    forall k | 0 <= k < n
      ensures TreeOf(style, ElementAt(Retained(reread, v).items, k)) == TreeOf(style, ElementAt(v.items, k))
    {
      RetainedElement(reread, v, k);
      hide Retained, RealFree, Count, TreeOf;
      RetainedPrintsTheSame(style, reread, ElementAt(v.items, k));
    }
    hide TreeOf, Retained, ElemTrees;
    SameElemTrees(style, v, Retained(reread, v), 0, n);
  }

  lemma ArrayTree(style: Style, v: Value)
    requires v.Arr?
    ensures TreeOf(style, v) == JArray(ElemTrees(style, v, 0, Count(v.items)), "")
  {
    hide Count, ElemTrees;
  }

  /** Elements that print the same, one by one. */
  lemma {:induction false} SameElemTrees(style: Style, v: Value, w: Value, i: nat, n: nat)
    requires v.Arr? && w.Arr?
    requires forall k :: 0 <= k < n ==> TreeOf(style, ElementAt(w.items, k)) == TreeOf(style, ElementAt(v.items, k))
    ensures ElemTrees(style, w, i, n) == ElemTrees(style, v, i, n)
    decreases if i < n then n - i else 0
  {
    if i < n {
      hide TreeOf, ElemTrees;
      SameElemTrees(style, v, w, i + 1, n);
      FirstElemTree(style, v, i, n);
      FirstElemTree(style, w, i, n);
    } else {
      hide TreeOf;
    }
  }

  lemma RetainedElement(reread: real -> real, v: Value, i: nat)
    requires v.Arr? && RealFree(v) && i < Count(v.items)
    ensures RealFree(ElementAt(v.items, i)) && Retained(reread, v).Arr?
    ensures ElementAt(Retained(reread, v).items, i) == Retained(reread, ElementAt(v.items, i))
  {
    hide Count;
  }

  lemma FirstElemTree(style: Style, v: Value, i: nat, n: nat)
    requires v.Arr? && i < n
    ensures ElemTrees(style, v, i, n) == [Elem("", TreeOf(style, ElementAt(v.items, i)), "")] + ElemTrees(style, v, i + 1, n)
  {
    hide TreeOf;
  }

  lemma {:induction false} RetainedMembersPrint(style: Style, reread: real -> real, v: Value, names: seq<CString>)
    requires v.Obj? && RealFree(v) && forall name :: name in names ==> name in v.members
    ensures MemberTrees(style, Retained(reread, v), names) == MemberTrees(style, v, names)
    decreases !v.Null?, v, 0, |names|
  {
    if names != [] {
      var child := v.members[names[0]];
      assert RealFree(child) && Retained(reread, v).members[names[0]] == Retained(reread, child);
      assert Retained(reread, v).members.Keys == v.members.Keys;
      hide Retained, RealFree, TreeOf, QuoteItems;
      RetainedPrintsTheSame(style, reread, child);
      RetainedMembersPrint(style, reread, v, names[1..]);
    }
  }
}
