// Value::operator<, operator== and compare (json_value.cpp); doubles are numbers here, so there
// is no NaN.
module ValueOrder {
  import opened Text
  import opened Values
  import opened Nodes

  /** ValueType, in the order of its enumerators. */
  function TypeOf(v: Value): nat {
    match v
    case Null => 0
    case Int(_) => 1
    case UInt(_) => 2
    case Real(_) => 3
    case Str(_) => 4
    case Bool(_) => 5
    case Arr(_) => 6
    case Obj(_) => 7
  }

  /** CZString::operator< on two indices or two names. */
  predicate KeyLess(a: Step, b: Step) {
    match (a, b)
    case (Index(i), Index(j)) => i < j
    case (Name(s), Name(t)) => StrLess(s, t)
    case _ => false
  }

  lemma HighestIndex(keys: set<nat>, top: nat)
    requires keys != {} && top + 1 == MaxPlusOne(keys)
    ensures top in keys && |keys - {top}| + 1 == |keys|
    ensures forall k :: k in keys - {top} ==> k < top
  {
    var k :| k in keys;
    assert |(keys - {top}) + {top}| == |keys|;
  }

  /** The keys of an array in the order std::map keeps them. */
  function SortedIndices(keys: set<nat>): (s: seq<nat>)
    ensures forall k :: k in s <==> k in keys
    ensures forall i, j :: 0 <= i < j < |s| ==> s[i] < s[j]
    ensures |s| == |keys|
    decreases |keys|
  {
    if keys == {} then []
    else
      var k: nat :| k in keys && k + 1 == MaxPlusOne(keys);
      HighestIndex(keys, k);
      SortedIndices(keys - {k}) + [k]
  }

  /** The keys of an array. */
  function IndexKeys(items: map<nat, Value>): (keys: seq<Step>)
    ensures forall k: Step :: k in keys <==> k.Index? && k.k in items
    ensures forall i, j :: 0 <= i < j < |keys| ==> KeyLess(keys[i], keys[j])
  {
    var s := SortedIndices(items.Keys);
    IndicesAsKeys(s);
    seq(|s|, i requires 0 <= i < |s| => Index(s[i]))
  }

  /** The keys of an object. */
  function NameKeys(members: map<CString, Value>): (keys: seq<Step>)
    ensures forall k: Step :: k in keys <==> k.Name? && k.name in members
    ensures forall i, j :: 0 <= i < j < |keys| ==> KeyLess(keys[i], keys[j])
  {
    var s := MemberNames(members);
    NamesAsKeys(s);
    seq(|s|, i requires 0 <= i < |s| => Name(s[i]))
  }

  /** The keys of a container in order; a scalar has none. */
  function KeysOf(v: Value): (keys: seq<Step>)
    ensures forall k: Step :: k in keys <==> HasChild(v, k)
    ensures forall i :: 0 <= i < |keys| ==> HasChild(v, keys[i])
    ensures forall i, j :: 0 <= i < j < |keys| ==> KeyLess(keys[i], keys[j])
  {
    match v
    case Arr(items) => IndexKeys(items)
    case Obj(members) => NameKeys(members)
    case _ => []
  }

  lemma IndicesAsKeys(s: seq<nat>)
    ensures var keys := seq(|s|, i requires 0 <= i < |s| => Index(s[i]));
            forall k: Step :: k in keys <==> k.Index? && k.k in s
  {
    var keys := seq(|s|, i requires 0 <= i < |s| => Index(s[i]));
    forall k: Step | k.Index? && k.k in s ensures k in keys {
      var i :| 0 <= i < |s| && s[i] == k.k;
      assert keys[i] == k;
    }
  }

  lemma NamesAsKeys(s: seq<CString>)
    ensures var keys := seq(|s|, i requires 0 <= i < |s| => Name(s[i]));
            forall k: Step :: k in keys <==> k.Name? && k.name in s
  {
    var keys := seq(|s|, i requires 0 <= i < |s| => Name(s[i]));
    forall k: Step | k.Name? && k.name in s ensures k in keys {
      var i :| 0 <= i < |s| && s[i] == k.name;
      assert keys[i] == k;
    }
  }

  function Max(a: nat, b: nat): nat { if a > b then a else b }

  /** How deeply containers are nested: the measure of the recursion. */
  ghost function Height(v: Value): nat
    decreases v, |KeysOf(v)| + 1
  {
    1 + HeightFrom(v, 0)
  }

  ghost function HeightFrom(v: Value, i: nat): nat
    decreases v, |KeysOf(v)| - i
  {
    if i >= |KeysOf(v)| then 0 else Max(Height(Child(v, KeysOf(v)[i])), HeightFrom(v, i + 1))
  }

  lemma {:induction false} HeightOfChild(v: Value, i: nat, j: nat)
    requires j <= i < |KeysOf(v)|
    ensures Height(Child(v, KeysOf(v)[i])) <= HeightFrom(v, j)
    decreases i - j
  {
    hide KeysOf, Height;
    if j < i {
      HeightOfChild(v, i, j + 1);
    }
  }

  /** The i-th entry of the map of a container. */
  function ValueAt(v: Value, i: nat): (child: Value)
    requires i < |KeysOf(v)|
    ensures Height(child) < Height(v)
  {
    HeightOfChild(v, i, 0);
    Child(v, KeysOf(v)[i])
  }

  /** operator< of std::pair on the i-th entries. */
  predicate EntryLess(a: Value, b: Value, i: nat)
    requires i < |KeysOf(a)| && i < |KeysOf(b)|
    decreases Height(a) + Height(b), 0
  {
    var ka, kb := KeysOf(a)[i], KeysOf(b)[i];
    KeyLess(ka, kb) || (!KeyLess(kb, ka) && Less(ValueAt(a, i), ValueAt(b, i)))
  }

  /** std::lexicographical_compare on the entries from i on. */
  predicate LessFrom(a: Value, b: Value, i: nat)
    decreases Height(a) + Height(b), 1 + if i < |KeysOf(a)| then |KeysOf(a)| - i else 0
  {
    if i >= |KeysOf(b)| then false
    else if i >= |KeysOf(a)| then true
    else if EntryLess(a, b, i) then true
    else if EntryLess(b, a, i) then false
    else LessFrom(a, b, i + 1)
  }

  /** int( size() - other.size() ) of the maps. */
  function SizeDelta(a: Value, b: Value): int {
    AsInt32(|KeysOf(a)| - |KeysOf(b)|)
  }

  /** operator< */
  predicate Less(a: Value, b: Value)
    decreases Height(a) + Height(b), 2 + |KeysOf(a)|
  {
    if TypeOf(a) != TypeOf(b) then TypeOf(a) < TypeOf(b)
    else
      match a
      case Null => false
      case Int(i) => i < b.i
      case UInt(u) => u < b.u
      case Real(r) => r < b.r
      case Str(s) => StrLess(s, b.s)
      case Bool(x) => !x && b.b
      case _ =>
        if SizeDelta(a, b) != 0 then SizeDelta(a, b) < 0
        else LessFrom(a, b, 0)
  }

  predicate EqualFrom(a: Value, b: Value, i: nat)
    requires |KeysOf(a)| == |KeysOf(b)|
    decreases Height(a) + Height(b), |KeysOf(a)| - i
  {
    i >= |KeysOf(a)| ||
    (KeysOf(a)[i] == KeysOf(b)[i] && Equal(ValueAt(a, i), ValueAt(b, i)) && EqualFrom(a, b, i + 1))
  }

  /** operator== */
  predicate Equal(a: Value, b: Value)
    decreases Height(a) + Height(b), 1 + |KeysOf(a)|
  {
    if TypeOf(a) != TypeOf(b) then false
    else
      match a
      case Null => true
      case Int(i) => i == b.i
      case UInt(u) => u == b.u
      case Real(r) => r == b.r
      case Str(s) => s == b.s
      case Bool(x) => x == b.b
      case _ => |KeysOf(a)| == |KeysOf(b)| && EqualFrom(a, b, 0)
  }

  /** compare() */
  function Compare(a: Value, b: Value): int {
    if Less(a, b) then -1 else if Less(b, a) then 1 else 0
  }

  // ---------- equality ----------

  ghost predicate SameAt(a: Value, b: Value, k: nat)
    requires k < |KeysOf(a)| && k < |KeysOf(b)|
  {
    KeysOf(a)[k] == KeysOf(b)[k] && ValueAt(a, k) == ValueAt(b, k)
  }

  /** Containers of the same kind with the same entries are the same. */
  lemma SameEntries(a: Value, b: Value)
    requires TypeOf(a) == TypeOf(b) >= 6 && |KeysOf(a)| == |KeysOf(b)|
    requires forall i :: 0 <= i < |KeysOf(a)| ==> SameAt(a, b, i)
    ensures a == b
  {
    hide KeysOf, Height, HeightFrom;
    forall i | 0 <= i < |KeysOf(a)| ensures KeysOf(a)[i] == KeysOf(b)[i] {
      assert SameAt(a, b, i);
    }
    assert KeysOf(a) == KeysOf(b);
    forall k: Step ensures HasChild(a, k) <==> HasChild(b, k) {
      assert k in KeysOf(a) <==> k in KeysOf(b);
    }
    forall k: Step | HasChild(a, k) ensures HasChild(b, k) && Child(a, k) == Child(b, k) {
      assert k in KeysOf(a);
      var i :| 0 <= i < |KeysOf(a)| && KeysOf(a)[i] == k;
      assert SameAt(a, b, i);
    }
    SameChildren(a, b);
  }

  lemma SameChildren(a: Value, b: Value)
    requires TypeOf(a) == TypeOf(b) >= 6
    requires forall k: Step :: HasChild(a, k) <==> HasChild(b, k)
    requires forall k: Step :: HasChild(a, k) && HasChild(b, k) ==> Child(a, k) == Child(b, k)
    ensures a == b
  {
    if a.Arr? {
      forall k: nat ensures k in a.items <==> k in b.items {
        assert HasChild(a, Index(k)) <==> HasChild(b, Index(k));
      }
      forall k: nat | k in a.items ensures a.items[k] == b.items[k] {
        assert HasChild(a, Index(k)) && Child(a, Index(k)) == Child(b, Index(k));
      }
      assert a.items == b.items;
    } else {
      forall k: CString ensures k in a.members <==> k in b.members {
        assert HasChild(a, Name(k)) <==> HasChild(b, Name(k));
      }
      forall k: CString | k in a.members ensures a.members[k] == b.members[k] {
        assert HasChild(a, Name(k)) && Child(a, Name(k)) == Child(b, Name(k));
      }
      assert a.members == b.members;
    }
  }

  lemma SameAsItself(a: Value)
    ensures forall k :: 0 <= k < |KeysOf(a)| ==> SameAt(a, a, k)
  {
    hide KeysOf;
  }

  lemma {:induction false} EqualEntries(a: Value, b: Value, i: nat)
    requires |KeysOf(a)| == |KeysOf(b)| && i <= |KeysOf(a)|
    ensures EqualFrom(a, b, i) <==> forall k :: i <= k < |KeysOf(a)| ==> SameAt(a, b, k)
    decreases Height(a) + Height(b), |KeysOf(a)| - i
  {
    hide KeysOf, Equal, Height, ValueAt;
    if i < |KeysOf(a)| {
      EqualIsIdentity(ValueAt(a, i), ValueAt(b, i));
      assert EqualFrom(a, b, i) <==> SameAt(a, b, i) && EqualFrom(a, b, i + 1);
      hide SameAt;
      EqualEntries(a, b, i + 1);
    }
  }

  /** operator== holds exactly for identical values. */
  lemma {:induction false} EqualIsIdentity(a: Value, b: Value)
    ensures Equal(a, b) <==> a == b
    decreases Height(a) + Height(b), 1 + |KeysOf(a)|
  {
    hide KeysOf, Height;
    if TypeOf(a) == TypeOf(b) >= 6 && |KeysOf(a)| == |KeysOf(b)| {
      EqualEntries(a, b, 0);
      SameAsItself(a);
      hide SameAt, EqualFrom;
      if Equal(a, b) {
        SameEntries(a, b);
      }
    }
  }

  // ---------- order ----------

  /** No container in v has more than limit entries. */
  ghost predicate SizesWithin(v: Value, limit: nat)
    decreases Height(v)
  {
    |KeysOf(v)| <= limit && forall i :: 0 <= i < |KeysOf(v)| ==> SizesWithin(ValueAt(v, i), limit)
  }

  lemma KeysTrichotomy(a: Value, b: Value, i: nat)
    requires TypeOf(a) == TypeOf(b) && i < |KeysOf(a)| && i < |KeysOf(b)|
    ensures var ka, kb := KeysOf(a)[i], KeysOf(b)[i];
            !(KeyLess(ka, kb) && KeyLess(kb, ka)) && (KeyLess(ka, kb) || KeyLess(kb, ka) <==> ka != kb)
  {
    hide KeysOf;
    var ka, kb := KeysOf(a)[i], KeysOf(b)[i];
    assert HasChild(a, ka) && HasChild(b, kb);
    if ka.Name? {
      StrTrichotomy(ka.name, kb.name);
    }
  }

  /** Entries that are not ordered either way are the same. */
  lemma {:induction false} EntriesSame(a: Value, b: Value, i: nat)
    requires TypeOf(a) == TypeOf(b) && i < |KeysOf(a)| && i < |KeysOf(b)|
    ensures !EntryLess(a, b, i) && !EntryLess(b, a, i) <==> SameAt(a, b, i)
    decreases Height(a) + Height(b), 0
  {
    hide KeysOf, Less, Height, KeyLess;
    KeysTrichotomy(a, b, i);
    LessConnected(ValueAt(a, i), ValueAt(b, i));
  }

  lemma {:induction false} EntriesConnected(a: Value, b: Value, i: nat)
    requires TypeOf(a) == TypeOf(b) && i <= |KeysOf(a)| && i <= |KeysOf(b)|
    ensures !LessFrom(a, b, i) && !LessFrom(b, a, i)
       <==> |KeysOf(a)| == |KeysOf(b)| && forall k :: i <= k < |KeysOf(a)| ==> SameAt(a, b, k)
    decreases Height(a) + Height(b), 1 + |KeysOf(a)| - i
  {
    hide KeysOf, Less, Height, EntryLess, ValueAt, SameAt;
    if i < |KeysOf(a)| && i < |KeysOf(b)| {
      EntriesSame(a, b, i);
      EntriesConnected(a, b, i + 1);
    }
  }

  /** Two different values are always ordered, at least one way. */
  lemma {:induction false} LessConnected(a: Value, b: Value)
    ensures Less(a, b) || Less(b, a) <==> a != b
    decreases Height(a) + Height(b), 2 + |KeysOf(a)|
  {
    hide KeysOf, Height;
    if TypeOf(a) == TypeOf(b) {
      if a.Str? {
        StrTrichotomy(a.s, b.s);
      } else if TypeOf(a) >= 6 {
        EntriesConnected(a, b, 0);
        SameAsItself(a);
        hide SameAt, LessFrom;
        if !Less(a, b) && !Less(b, a) {
          assert SizeDelta(a, b) == 0 && SizeDelta(b, a) == 0;
          SameEntries(a, b);
        }
      }
    }
  }

  /** compare() is 0 exactly on equal values. */
  lemma CompareIsZero(a: Value, b: Value)
    ensures Compare(a, b) == 0 <==> Equal(a, b)
  {
    hide Less, Equal;
    LessConnected(a, b);
    EqualIsIdentity(a, b);
  }

  lemma LessFromStep(a: Value, b: Value, i: nat)
    ensures LessFrom(a, b, i) <==>
            i < |KeysOf(b)|
            && (i < |KeysOf(a)| ==> EntryLess(a, b, i) || (!EntryLess(b, a, i) && LessFrom(a, b, i + 1)))
  {
    hide KeysOf, EntryLess;
  }

  lemma {:induction false} EntryAsymmetric(a: Value, b: Value, i: nat)
    requires TypeOf(a) == TypeOf(b) && SizesWithin(a, MAX_INT) && SizesWithin(b, MAX_INT)
    ensures i < |KeysOf(a)| && i < |KeysOf(b)| ==> !(EntryLess(a, b, i) && EntryLess(b, a, i))
    decreases Height(a) + Height(b), 0
  {
    if i < |KeysOf(a)| && i < |KeysOf(b)| {
      assert SizesWithin(ValueAt(a, i), MAX_INT) && SizesWithin(ValueAt(b, i), MAX_INT);
      hide KeysOf, Less, Height, ValueAt, KeyLess, SizesWithin;
      KeysTrichotomy(a, b, i);
      LessAsymmetric(ValueAt(a, i), ValueAt(b, i));
    }
  }

  lemma {:induction false} EntriesAsymmetric(a: Value, b: Value, i: nat)
    requires TypeOf(a) == TypeOf(b) && SizesWithin(a, MAX_INT) && SizesWithin(b, MAX_INT)
    ensures !(LessFrom(a, b, i) && LessFrom(b, a, i))
    decreases Height(a) + Height(b), 1 + if i < |KeysOf(a)| then |KeysOf(a)| - i else 0
  {
    hide KeysOf, Less, Height, EntryLess, SizesWithin, LessFrom, TypeOf;
    LessFromStep(a, b, i);
    LessFromStep(b, a, i);
    if i < |KeysOf(a)| && i < |KeysOf(b)| {
      EntryAsymmetric(a, b, i);
      EntriesAsymmetric(a, b, i + 1);
    }
  }

  /** As long as sizes fit an int, no two values are ordered both ways. */
  lemma {:induction false} LessAsymmetric(a: Value, b: Value)
    requires SizesWithin(a, MAX_INT) && SizesWithin(b, MAX_INT)
    ensures !(Less(a, b) && Less(b, a))
    decreases Height(a) + Height(b), 2 + |KeysOf(a)|
  {
    hide KeysOf, Height;
    if TypeOf(a) == TypeOf(b) {
      if a.Str? {
        StrTrichotomy(a.s, b.s);
      } else if TypeOf(a) >= 6 {
        EntriesAsymmetric(a, b, 0);
      }
    }
  }

  lemma KeysTransitive(a: Step, b: Step, c: Step)
    requires KeyLess(a, b) && KeyLess(b, c)
    ensures KeyLess(a, c)
  {
    if a.Name? {
      StrTransitive(a.name, b.name, c.name);
    }
  }

  /** a < b and b < c on the i-th entries. */
  lemma {:induction false} EntryTransitive(a: Value, b: Value, c: Value, i: nat)
    requires TypeOf(a) == TypeOf(b) == TypeOf(c)
    requires SizesWithin(a, MAX_INT) && SizesWithin(b, MAX_INT) && SizesWithin(c, MAX_INT)
    requires i < |KeysOf(a)| && i < |KeysOf(b)| && i < |KeysOf(c)|
    requires EntryLess(a, b, i) && EntryLess(b, c, i)
    ensures EntryLess(a, c, i)
    decreases Height(a) + Height(b) + Height(c), 0
  {
    assert SizesWithin(ValueAt(a, i), MAX_INT) && SizesWithin(ValueAt(b, i), MAX_INT) && SizesWithin(ValueAt(c, i), MAX_INT);
    hide KeysOf, Less, Height, ValueAt, SizesWithin;
    KeysTrichotomy(a, b, i);
    KeysTrichotomy(b, c, i);
    KeysTrichotomy(a, c, i);
    var ka, kb, kc := KeysOf(a)[i], KeysOf(b)[i], KeysOf(c)[i];
    if KeyLess(ka, kb) && KeyLess(kb, kc) {
      KeysTransitive(ka, kb, kc);
    } else if ka == kb == kc {
      LessTransitive(ValueAt(a, i), ValueAt(b, i), ValueAt(c, i));
    }
  }

  lemma {:induction false} EntriesTransitive(a: Value, b: Value, c: Value, i: nat)
    requires TypeOf(a) == TypeOf(b) == TypeOf(c)
    requires SizesWithin(a, MAX_INT) && SizesWithin(b, MAX_INT) && SizesWithin(c, MAX_INT)
    requires |KeysOf(a)| == |KeysOf(b)| == |KeysOf(c)|
    requires LessFrom(a, b, i) && LessFrom(b, c, i)
    ensures LessFrom(a, c, i)
    decreases Height(a) + Height(b) + Height(c), 1 + if i < |KeysOf(a)| then |KeysOf(a)| - i else 0
  {
    hide KeysOf, Less, Height, ValueAt, KeyLess, SizesWithin, EntryLess, SameAt, LessFrom, TypeOf;
    LessFromStep(a, b, i);
    LessFromStep(b, c, i);
    LessFromStep(a, c, i);
    EntryAsymmetric(a, c, i);
    EntriesSame(a, b, i);
    EntriesSame(b, c, i);
    if EntryLess(a, b, i) && EntryLess(b, c, i) {
      EntryTransitive(a, b, c, i);
    } else if !EntryLess(a, b, i) && !EntryLess(b, c, i) {
      SameEntryTwice(a, b, c, i);
      EntriesSame(a, c, i);
      EntriesTransitive(a, b, c, i + 1);
    } else {
      SameEntryOrders(a, b, c, i);
    }
  }

  lemma SameEntryTwice(a: Value, b: Value, c: Value, i: nat)
    requires i < |KeysOf(a)| && i < |KeysOf(b)| && i < |KeysOf(c)| && SameAt(a, b, i) && SameAt(b, c, i)
    ensures SameAt(a, c, i)
  {
    hide KeysOf, ValueAt;
  }

  /** The same entry is ordered in the same way. */
  lemma SameEntryOrders(a: Value, b: Value, c: Value, i: nat)
    requires i < |KeysOf(a)| && i < |KeysOf(b)| && i < |KeysOf(c)|
    ensures SameAt(a, b, i) ==> EntryLess(a, c, i) == EntryLess(b, c, i)
    ensures SameAt(b, c, i) ==> EntryLess(a, b, i) == EntryLess(a, c, i)
  {
    hide KeysOf, ValueAt, Less, KeyLess;
  }

  /** As long as sizes fit an int, operator< is transitive. */
  lemma {:induction false} LessTransitive(a: Value, b: Value, c: Value)
    requires SizesWithin(a, MAX_INT) && SizesWithin(b, MAX_INT) && SizesWithin(c, MAX_INT)
    requires Less(a, b) && Less(b, c)
    ensures Less(a, c)
    decreases Height(a) + Height(b) + Height(c), 2 + |KeysOf(a)|
  {
    hide KeysOf, Height;
    if TypeOf(a) == TypeOf(b) == TypeOf(c) {
      if a.Str? {
        StrTransitive(a.s, b.s, c.s);
      } else if TypeOf(a) >= 6 && |KeysOf(a)| == |KeysOf(b)| == |KeysOf(c)| {
        EntriesTransitive(a, b, c, 0);
      }
    }
  }

  // ---------- sizes that do not fit ----------

  ghost function NullItems(n: nat): (items: map<nat, Value>)
    ensures |items| == n
    ensures forall k :: k in items ==> k < n && items[k] == Null
  {
    if n == 0 then map[] else NullItems(n - 1)[n - 1 := Null]
  }

  /** The array of n nulls. */
  ghost function NullArray(n: nat): Value {
    Arr(NullItems(n))
  }

  lemma NullArraySize(n: nat)
    ensures |KeysOf(NullArray(n))| == n && SizesWithin(NullArray(n), n)
  {
    var v := NullArray(n);
    assert |v.items.Keys| == |v.items|;
    assert |KeysOf(v)| == n;
    forall i | 0 <= i < n ensures SizesWithin(ValueAt(v, i), n) {
      assert HasChild(v, KeysOf(v)[i]) && ValueAt(v, i) == Null;
      assert KeysOf(Null) == [];
    }
  }

  lemma {:induction false} WiderSizes(v: Value, low: nat, high: nat)
    requires SizesWithin(v, low) && low <= high
    ensures SizesWithin(v, high)
    decreases Height(v)
  {
    forall i | 0 <= i < |KeysOf(v)| ensures SizesWithin(ValueAt(v, i), high) {
      WiderSizes(ValueAt(v, i), low, high);
    }
  }

  /** An array of 2^31 elements and an empty one are each less than the other. */
  lemma HugeArraysCycle()
    ensures Less(NullArray(MAX_INT + 1), NullArray(0)) && Less(NullArray(0), NullArray(MAX_INT + 1))
  {
    var huge, none := NullArray(MAX_INT + 1), NullArray(0);
    NullArraySize(MAX_INT + 1);
    NullArraySize(0);
    hide KeysOf, NullArray, NullItems, LessFrom, SizesWithin;
    assert SizeDelta(huge, none) < 0 && SizeDelta(none, huge) < 0;
  }

  /** What a strict total order says of three values. */
  ghost predicate Ordered(a: Value, b: Value, c: Value) {
    && !(Less(a, b) && Less(b, a))
    && (Less(a, b) || Less(b, a) <==> a != b)
    && (Less(a, b) && Less(b, c) ==> Less(a, c))
  }

  /** operator< is a strict total order on the values whose containers have no more than limit entries if
      and only if limit fits an int: the narrowed difference of sizes is all that can go wrong. */
  lemma OrderIffSizesFit(limit: nat)
    ensures (forall a, b, c :: SizesWithin(a, limit) && SizesWithin(b, limit) && SizesWithin(c, limit) ==> Ordered(a, b, c))
       <==> limit <= MAX_INT
  {
    hide Less, SizesWithin, NullArray;
    if limit <= MAX_INT {
      forall a, b, c | SizesWithin(a, limit) && SizesWithin(b, limit) && SizesWithin(c, limit) ensures Ordered(a, b, c) {
        WiderSizes(a, limit, MAX_INT);
        WiderSizes(b, limit, MAX_INT);
        WiderSizes(c, limit, MAX_INT);
        LessAsymmetric(a, b);
        LessConnected(a, b);
        if Less(a, b) && Less(b, c) {
          LessTransitive(a, b, c);
        }
      }
    } else {
      var huge, none := NullArray(MAX_INT + 1), NullArray(0);
      HugeArraysCycle();
      NullArraySize(MAX_INT + 1);
      NullArraySize(0);
      WiderSizes(huge, MAX_INT + 1, limit);
      WiderSizes(none, 0, limit);
      assert !Ordered(huge, none, none);
    }
  }

  /** As long as sizes fit an int, the sign of compare() is the order, and flips with its arguments. */
  lemma CompareIsConsistent(a: Value, b: Value)
    requires SizesWithin(a, MAX_INT) && SizesWithin(b, MAX_INT)
    ensures Compare(a, b) < 0 <==> Less(a, b)
    ensures Compare(a, b) == -Compare(b, a)
  {
    hide Less, SizesWithin;
    LessAsymmetric(a, b);
  }
}
