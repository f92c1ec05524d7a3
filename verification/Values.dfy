// Json::Value without comments and without string ownership.
module Values {
  import opened Text

  const MAX_INT: int := 0x7FFF_FFFF
  const TWO_63: int := 0x8000_0000_0000_0000
  const TWO_64: int := 0x1_0000_0000_0000_0000

  /** Conversion of an integer to uint64. */
  function WrapU64(x: int): nat { x % TWO_64 }

  /** Conversion of an integer to int64 on a two's complement machine. */
  function WrapI64(x: int): int {
    var u := x % TWO_64;
    if u >= TWO_63 then u - TWO_64 else u
  }

  /** Conversion of an unsigned number to int. */
  function AsInt32(n: int): int {
    var u := n % 0x1_0000_0000;
    if u > MAX_INT then u - 0x1_0000_0000 else u
  }

  type Int64 = i: int | -TWO_63 <= i < TWO_63

  type UInt64 = u: nat | u < TWO_64

  datatype Value =
    | Null
    | Int(i: Int64)
    | UInt(u: UInt64)
    | Real(r: real)
    | Str(s: CString)
    | Bool(b: bool)
    | Arr(items: map<nat, Value>)
    | Obj(members: map<CString, Value>)

  /** Highest key plus one: the number of elements of a sparse array. */
  function Extent(items: map<nat, Value>): (n: nat)
    ensures forall k :: k in items ==> k < n
    ensures n > 0 ==> n - 1 in items
  {
    MaxPlusOne(items.Keys)
  }

  function MaxPlusOne(keys: set<nat>): (n: nat)
    ensures forall k :: k in keys ==> k < n
    ensures n > 0 ==> n - 1 in keys
  {
    if keys == {} then 0
    else
      MaxExists(keys);
      var top: nat :| top in keys && forall k :: k in keys ==> k <= top;
      top + 1
  }

  lemma {:induction false} MaxExists(keys: set<nat>)
    requires keys != {}
    ensures exists top: nat :: top in keys && forall k :: k in keys ==> k <= top
    decreases keys
  {
    var x :| x in keys;
    var rest := keys - {x};
    if rest != {} {
      MaxExists(rest);
      var top: nat :| top in rest && forall k :: k in rest ==> k <= top;
      var best := if x > top then x else top;
      forall k | k in keys ensures k <= best {
        assert k == x || k in rest;
      }
    } else {
      assert keys == {x};
    }
  }

  /** value[index]: a missing key reads as null. */
  function ElementAt(items: map<nat, Value>, k: nat): Value {
    if k in items then items[k] else Null
  }

  /** The keys of a map in the order std::map keeps them (strcmp order). */
  function SortedNames(keys: set<CString>): (names: seq<CString>)
    ensures forall k :: k in names <==> k in keys
    ensures Ascending(names)
    ensures |names| == |keys|
    decreases keys
  {
    if keys == {} then []
    else
      LeastExists(keys);
      LeastUnique(keys);
      var least: CString :| IsLeast(keys, least);
      assert |keys - {least}| == |keys| - 1;
      [least] + SortedNames(keys - {least})
  }

  predicate IsLeast(keys: set<CString>, least: CString) {
    least in keys && forall k :: k in keys && k != least ==> StrLess(least, k)
  }

  predicate Ascending(names: seq<CString>) {
    forall i, j :: 0 <= i < j < |names| ==> StrLess(names[i], names[j])
  }

  lemma {:induction false} LeastExists(keys: set<CString>)
    requires keys != {}
    ensures exists least: CString :: IsLeast(keys, least)
    decreases keys
  {
    var x :| x in keys;
    var rest := keys - {x};
    if rest == {} {
      assert keys == {x};
      assert IsLeast(keys, x);
    } else {
      LeastExists(rest);
      var least: CString :| IsLeast(rest, least);
      StrTrichotomy(x, least);
      if StrLess(x, least) {
        forall k | k in keys && k != x ensures StrLess(x, k) {
          if k != least { StrTransitive(x, least, k); }
        }
        assert IsLeast(keys, x);
      } else {
        assert IsLeast(keys, least);
      }
    }
  }

  lemma LeastUnique(keys: set<CString>)
    ensures forall a: CString, b: CString :: IsLeast(keys, a) && IsLeast(keys, b) ==> a == b
  {
    forall a: CString, b: CString | IsLeast(keys, a) && IsLeast(keys, b) ensures a == b {
      StrTrichotomy(a, b);
    }
  }

  /** The names of an object, in the order getMemberNames() lists them. */
  function MemberNames(members: map<CString, Value>): (names: seq<CString>)
    ensures forall k :: k in names <==> k in members
    ensures Ascending(names)
  {
    SortedNames(members.Keys)
  }

  /** size() of an array: its extent, in the 32 bits of an ArrayIndex. */
  function Size(items: map<nat, Value>): nat {
    Extent(items) % 0x1_0000_0000
  }

  /** No double anywhere in v. */
  ghost predicate RealFree(v: Value) {
    match v
    case Real(_) => false
    case Arr(items) => forall k :: k in items ==> RealFree(items[k])
    case Obj(members) => forall k :: k in members ==> RealFree(members[k])
    case _ => true
  }

  /** No array anywhere in v has more than limit elements. */
  ghost predicate ArraysWithin(v: Value, limit: nat) {
    match v
    case Arr(items) => Extent(items) <= limit && forall k :: k in items ==> ArraysWithin(items[k], limit)
    case Obj(members) => forall k :: k in members ==> ArraysWithin(members[k], limit)
    case _ => true
  }

  /** The value the reader stores for the integer n: labelled by magnitude. */
  function IntegerValue(n: int): Value
    requires -TWO_63 <= n < TWO_64
  {
    if n <= MAX_INT then Int(n) else UInt(n)
  }

  /** What the reader makes of a printed value: integers are relabelled by magnitude, the holes
      of an array become nulls, and doubles go through their text. */
  ghost function Norm(reread: real -> real, v: Value): Value
    decreases !v.Null?, v
  {
    match v
    case Int(i) => IntegerValue(i)
    case UInt(u) => IntegerValue(u)
    case Real(r) => Real(reread(r))
    case Arr(items) => Arr(map k: nat | 0 <= k < Extent(items) :: Norm(reread, ElementAt(items, k)))
    case Obj(members) => Obj(map k | k in members :: Norm(reread, members[k]))
    case _ => v
  }
}
