// The order operator< is meant to be, stated on values alone, and that it is this order.
module Precedence {
  import opened Text
  import opened Values
  import opened Nodes
  import opened ValueOrder

  /** The kinds in their order: null, int, uint, real, string, boolean, array, object. */
  ghost function Rank(v: Value): nat {
    if v.Null? then 0
    else if v.Int? then 1
    else if v.UInt? then 2
    else if v.Real? then 3
    else if v.Str? then 4
    else if v.Bool? then 5
    else if v.Arr? then 6
    else 7
  }

  /** The strings differ first at k, where s has the smaller byte or has ended. */
  ghost predicate BeforeAt(s: string, t: string, k: nat) {
    k <= |s| && k < |t| && s[..k] == t[..k] && (k == |s| || s[k] < t[k])
  }

  ghost predicate BytesBefore(s: string, t: string) {
    exists k: nat :: BeforeAt(s, t, k)
  }

  ghost predicate KeyBefore(k: Step, l: Step) {
    (k.Index? && l.Index? && k.k < l.k) || (k.Name? && l.Name? && BytesBefore(k.name, l.name))
  }

  /** The containers do not have the same under this key. */
  ghost predicate DifferAt(a: Value, b: Value, k: Step) {
    HasChild(a, k) != HasChild(b, k) || (HasChild(a, k) && Child(a, k) != Child(b, k))
  }

  /** The least key under which they differ. */
  ghost predicate FirstDifference(a: Value, b: Value, k: Step) {
    DifferAt(a, b, k) && forall l: Step :: KeyBefore(l, k) ==> !DifferAt(a, b, l)
  }

  ghost function Entries(v: Value): nat {
    if v.Arr? then |v.items| else if v.Obj? then |v.members| else 0
  }

  /** Kinds rank first, then numbers by value, false before true, strings by their first differing byte, and
      containers by their number of entries; at equal size the first difference decides: the container that has
      that key comes first if the other has not, and otherwise the one with the preceding value. */
  ghost predicate Precedes(a: Value, b: Value)
    decreases a
  {
    if Rank(a) != Rank(b) then Rank(a) < Rank(b)
    else if a.Int? then a.i < b.i
    else if a.UInt? then a.u < b.u
    else if a.Real? then a.r < b.r
    else if a.Str? then BytesBefore(a.s, b.s)
    else if a.Bool? then !a.b && b.b
    else if Entries(a) != Entries(b) then Entries(a) < Entries(b)
    else exists k: Step :: FirstDifference(a, b, k) && HasChild(a, k) && (HasChild(b, k) ==> Precedes(Child(a, k), Child(b, k)))
  }

  // ---------- strings and keys ----------

  lemma SharedFirst(s: string, t: string)
    ensures forall k: nat :: k > 0 && BeforeAt(s, t, k) ==> s != "" && t != "" && s[0] == t[0]
  {
    forall k: nat | k > 0 && BeforeAt(s, t, k) ensures s != "" && t != "" && s[0] == t[0] {
      assert s[0] == s[..k][0] && t[0] == t[..k][0];
    }
  }

  lemma {:induction false} StrLessIsBytesBefore(s: string, t: string)
    ensures StrLess(s, t) <==> BytesBefore(s, t)
    decreases |s|
  {
    if s == "" || t == "" || s[0] != t[0] {
      if StrLess(s, t) {
        assert BeforeAt(s, t, 0);
      }
      SharedFirst(s, t);
    } else {
      StrLessIsBytesBefore(s[1..], t[1..]);
      if k: nat :| BeforeAt(s[1..], t[1..], k) {
        assert s[..k + 1] == [s[0]] + s[1..][..k] && t[..k + 1] == [t[0]] + t[1..][..k];
        assert BeforeAt(s, t, k + 1);
      }
      if k: nat :| BeforeAt(s, t, k) {
        assert s[1..][..k - 1] == s[..k][1..] && t[1..][..k - 1] == t[..k][1..];
        assert BeforeAt(s[1..], t[1..], k - 1);
      }
    }
  }

  lemma KeyLessIsKeyBefore(k: Step, l: Step)
    ensures KeyLess(k, l) <==> KeyBefore(k, l)
  {
    hide StrLess, BytesBefore;
    if k.Name? && l.Name? {
      StrLessIsBytesBefore(k.name, l.name);
    }
  }

  lemma KeysAreOrdered(k: Step, l: Step, m: Step)
    ensures !(KeyLess(k, l) && KeyLess(l, k))
    ensures KeyLess(k, l) && KeyLess(l, m) ==> KeyLess(k, m)
  {
    if k.Name? && l.Name? {
      StrTrichotomy(k.name, l.name);
    }
    if KeyLess(k, l) && KeyLess(l, m) {
      KeysTransitive(k, l, m);
    }
  }

  // ---------- one direction ----------

  /** Below the first entry in which they differ, containers have the same. */
  lemma BelowIsSame(a: Value, b: Value, j: nat, l: Step)
    requires j < |KeysOf(a)| && j < |KeysOf(b)| && forall m :: 0 <= m < j ==> SameAt(a, b, m)
    requires KeyLess(l, KeysOf(a)[j])
    requires KeyLess(KeysOf(a)[j], KeysOf(b)[j]) || KeysOf(a)[j] == KeysOf(b)[j]
    ensures !DifferAt(a, b, l)
  {
    hide KeysOf, KeyLess;
    var ka, kb := KeysOf(a)[j], KeysOf(b)[j];
    KeysAreOrdered(l, ka, kb);
    KeysAreOrdered(l, ka, l);
    KeysAreOrdered(l, kb, l);
    if HasChild(a, l) {
      assert l in KeysOf(a);
      var p :| 0 <= p < |KeysOf(a)| && KeysOf(a)[p] == l;
      assert p < j && SameAt(a, b, p);
    }
    if HasChild(b, l) {
      assert l in KeysOf(b);
      var p :| 0 <= p < |KeysOf(b)| && KeysOf(b)[p] == l;
      assert p < j && SameAt(a, b, p);
    }
  }

  lemma NothingBelow(a: Value, b: Value, j: nat)
    requires j < |KeysOf(a)| && j < |KeysOf(b)| && forall m :: 0 <= m < j ==> SameAt(a, b, m)
    requires KeyLess(KeysOf(a)[j], KeysOf(b)[j]) || KeysOf(a)[j] == KeysOf(b)[j]
    ensures forall l: Step :: KeyBefore(l, KeysOf(a)[j]) ==> !DifferAt(a, b, l)
  {
    var k := KeysOf(a)[j];
    hide KeysOf, KeyLess, KeyBefore, SameAt, DifferAt;
    forall l: Step | KeyBefore(l, k) ensures !DifferAt(a, b, l) {
      KeyLessIsKeyBefore(l, k);
      BelowIsSame(a, b, j, l);
    }
  }

  /** The first difference is to the advantage of a. */
  ghost predicate Ahead(a: Value, b: Value, k: Step) {
    FirstDifference(a, b, k) && HasChild(a, k) && (HasChild(b, k) ==> Precedes(Child(a, k), Child(b, k)))
  }

  /** At the first entry that is less, it is. */
  lemma KeyDecides(a: Value, b: Value, j: nat)
    requires j < |KeysOf(a)| && j < |KeysOf(b)| && forall m :: 0 <= m < j ==> SameAt(a, b, m)
    requires KeyLess(KeysOf(a)[j], KeysOf(b)[j])
    ensures Ahead(a, b, KeysOf(a)[j])
  {
    hide KeysOf, KeyLess, KeyBefore, Precedes, SameAt;
    NothingBelow(a, b, j);
    KeyIsMissing(a, b, j);
  }

  lemma ValueDecides(a: Value, b: Value, j: nat)
    requires j < |KeysOf(a)| && j < |KeysOf(b)| && forall m :: 0 <= m < j ==> SameAt(a, b, m)
    requires KeysOf(a)[j] == KeysOf(b)[j] && ValueAt(a, j) != ValueAt(b, j) && Precedes(ValueAt(a, j), ValueAt(b, j))
    ensures Ahead(a, b, KeysOf(a)[j])
  {
    hide KeysOf, KeyLess, KeyBefore, Precedes, SameAt, ValueAt, HasChild, Child;
    NothingBelow(a, b, j);
    EntryAt(a, j);
    EntryAt(b, j);
  }

  lemma EntryAt(v: Value, j: nat)
    requires j < |KeysOf(v)|
    ensures HasChild(v, KeysOf(v)[j]) && Child(v, KeysOf(v)[j]) == ValueAt(v, j)
  {
    hide KeysOf, HasChild, Child;
  }

  /** The container whose entry is greater does not have the other's key. */
  lemma KeyIsMissing(a: Value, b: Value, j: nat)
    requires j < |KeysOf(a)| && j < |KeysOf(b)| && forall m :: 0 <= m < j ==> SameAt(a, b, m)
    requires KeyLess(KeysOf(a)[j], KeysOf(b)[j])
    ensures !HasChild(b, KeysOf(a)[j])
  {
    hide KeysOf, KeyLess, HasChild, ValueAt, SameAt;
    var k := KeysOf(a)[j];
    if HasChild(b, k) {
      var p :| 0 <= p < |KeysOf(b)| && KeysOf(b)[p] == k;
      KeysAreOrdered(k, KeysOf(b)[j], k);
      assert p < j && SameAt(a, b, p);
      SameKey(a, b, p);
      KeysAreOrdered(k, k, k);
    }
  }

  lemma SameKey(a: Value, b: Value, p: nat)
    requires p < |KeysOf(a)| && p < |KeysOf(b)| && SameAt(a, b, p)
    ensures KeysOf(a)[p] == KeysOf(b)[p]
  {
    hide KeysOf;
  }

  /** The entry that decides a lexicographical comparison. */
  lemma {:induction false} DecidingEntry(a: Value, b: Value, i: nat) returns (j: nat)
    requires TypeOf(a) == TypeOf(b) && |KeysOf(a)| == |KeysOf(b)| && LessFrom(a, b, i)
    requires forall m :: 0 <= m < i ==> SameAt(a, b, m)
    ensures j < |KeysOf(a)| && EntryLess(a, b, j) && forall m :: 0 <= m < j ==> SameAt(a, b, m)
    decreases |KeysOf(a)| - i
  {
    hide KeysOf, EntryLess, SameAt, LessFrom;
    LessFromStep(a, b, i);
    EntriesSame(a, b, i);
    if EntryLess(a, b, i) {
      j := i;
    } else {
      j := DecidingEntry(a, b, i + 1);
    }
  }

  lemma EntriesAreKeys(v: Value)
    ensures |KeysOf(v)| == Entries(v)
  {
    match v
    case Arr(items) =>
      assert |items.Keys| == |items|;
    case Obj(members) =>
      assert |members.Keys| == |members|;
    case _ =>
  }

  lemma {:induction false} LessPrecedes(a: Value, b: Value)
    requires SizesWithin(a, MAX_INT) && SizesWithin(b, MAX_INT) && Less(a, b)
    ensures Precedes(a, b)
    decreases Height(a) + Height(b)
  {
    hide KeysOf, Height;
    if a.Str? && b.Str? {
      StrLessIsBytesBefore(a.s, b.s);
    } else if TypeOf(a) == TypeOf(b) >= 6 {
      EntriesAreKeys(a);
      EntriesAreKeys(b);
      if Entries(a) == Entries(b) {
        var j := DecidingEntry(a, b, 0);
        assert SizesWithin(ValueAt(a, j), MAX_INT) && SizesWithin(ValueAt(b, j), MAX_INT);
        EntryPrecedes(a, b, j);
        if KeyLess(KeysOf(a)[j], KeysOf(b)[j]) {
          KeyDecides(a, b, j);
        } else {
          ValueDecides(a, b, j);
        }
      }
    }
  }

  lemma {:induction false} EntryPrecedes(a: Value, b: Value, j: nat)
    requires TypeOf(a) == TypeOf(b) && j < |KeysOf(a)| && j < |KeysOf(b)| && EntryLess(a, b, j)
    requires SizesWithin(ValueAt(a, j), MAX_INT) && SizesWithin(ValueAt(b, j), MAX_INT)
    ensures KeyLess(KeysOf(a)[j], KeysOf(b)[j])
            || (KeysOf(a)[j] == KeysOf(b)[j] && ValueAt(a, j) != ValueAt(b, j) && Precedes(ValueAt(a, j), ValueAt(b, j)))
    decreases Height(a) + Height(b), 0
  {
    hide KeysOf, Height, Less, Precedes, SizesWithin, KeyLess;
    KeysTrichotomy(a, b, j);
    if !KeyLess(KeysOf(a)[j], KeysOf(b)[j]) {
      LessPrecedes(ValueAt(a, j), ValueAt(b, j));
      LessConnected(ValueAt(a, j), ValueAt(b, j));
    }
  }

  // ---------- the other direction ----------

  lemma KeysBeforeOrNot(k: Step, l: Step)
    requires k.Index? == l.Index?
    ensures KeyBefore(k, l) || KeyBefore(l, k) || k == l
  {
    KeyLessIsKeyBefore(k, l);
    KeyLessIsKeyBefore(l, k);
    if k.Name? {
      StrTrichotomy(k.name, l.name);
    }
  }

  /** No two values precede each other. */
  lemma {:induction false} PrecedesOneWay(a: Value, b: Value)
    ensures !(Precedes(a, b) && Precedes(b, a))
    decreases a
  {
    if Precedes(a, b) && Precedes(b, a) {
      if a.Str? && b.Str? {
        StrLessIsBytesBefore(a.s, b.s);
        StrLessIsBytesBefore(b.s, a.s);
        StrTrichotomy(a.s, b.s);
      } else if (a.Arr? && b.Arr?) || (a.Obj? && b.Obj?) {
        var k: Step :| FirstDifference(a, b, k) && HasChild(a, k) && (HasChild(b, k) ==> Precedes(Child(a, k), Child(b, k)));
        var l: Step :| FirstDifference(b, a, l) && HasChild(b, l) && (HasChild(a, l) ==> Precedes(Child(b, l), Child(a, l)));
        hide Precedes, KeyBefore;
        KeysBeforeOrNot(k, l);
        assert k == l;
        PrecedesOneWay(Child(a, k), Child(b, k));
      }
    }
  }

  /** As long as sizes fit an int, operator< is this order. */
  lemma LessIsPrecedence(a: Value, b: Value)
    requires SizesWithin(a, MAX_INT) && SizesWithin(b, MAX_INT)
    ensures Less(a, b) <==> Precedes(a, b)
  {
    hide Less, Precedes, SizesWithin;
    LessConnected(a, b);
    PrecedesOneWay(a, b);
    if Less(a, b) {
      LessPrecedes(a, b);
    } else if Less(b, a) {
      LessPrecedes(b, a);
    }
  }

  /** And compare() is its sign. */
  lemma CompareIsPrecedence(a: Value, b: Value)
    requires SizesWithin(a, MAX_INT) && SizesWithin(b, MAX_INT)
    ensures Compare(a, b) == if Precedes(a, b) then -1 else if Precedes(b, a) then 1 else 0
    ensures Compare(a, b) == 0 <==> a == b
  {
    hide Less, Precedes, SizesWithin;
    LessIsPrecedence(a, b);
    LessIsPrecedence(b, a);
    LessConnected(a, b);
  }

  /** The names of an object are listed in the order of their bytes, each once. */
  lemma NamesAscend(members: map<CString, Value>)
    ensures var names := MemberNames(members);
            && (forall name :: name in names <==> name in members)
            && (forall i, j :: 0 <= i < j < |names| ==> BytesBefore(names[i], names[j]))
  {
    var names := MemberNames(members);
    hide BytesBefore, StrLess;
    forall i, j | 0 <= i < j < |names| ensures BytesBefore(names[i], names[j]) {
      StrLessIsBytesBefore(names[i], names[j]);
    }
  }
}
