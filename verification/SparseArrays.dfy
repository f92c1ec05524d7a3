// Value::operator[], append, resize and clear on arrays (json_value.cpp): a sparse index map that
// stands for a sequence.
module SparseArrays {
  import opened Text
  import opened Values
  import opened Scanner
  import opened Strings
  import opened Parser

  /** Range of ArrayIndex. */
  const INDEX_RANGE: nat := 0x1_0000_0000

  /** The sequence an array stands for: size() elements, null where a key is missing. */
  ghost function View(items: map<nat, Value>): (s: seq<Value>)
    ensures |s| == Size(items)
    ensures forall k :: 0 <= k < |s| ==> s[k] == ElementAt(items, k)
  {
    seq(Size(items), k requires 0 <= k < Size(items) => ElementAt(items, k))
  }

  /** n nulls. */
  ghost function Nulls(n: nat): (s: seq<Value>)
    ensures |s| == n && forall k :: 0 <= k < n ==> s[k] == Null
  {
    seq(n, _ => Null)
  }

  /** The map after operator[]( index ). */
  function Touched(items: map<nat, Value>, index: nat): map<nat, Value> {
    items[index := ElementAt(items, index)]
  }

  /** The map after erasing the keys from low up to high. */
  function Erased(items: map<nat, Value>, low: nat, high: nat): map<nat, Value> {
    map k | k in items && !(low <= k < high) :: items[k]
  }

  lemma ExtentIs(items: map<nat, Value>, n: nat)
    requires forall k :: k in items ==> k < n
    requires n > 0 ==> n - 1 in items
    ensures Extent(items) == n
  {
  }

  /** What the sequence is after operator[]( index ): it stays as it is below the size, and otherwise nulls
      are appended up to and including the index, except that with the largest index, once it is there,
      size() is 0. */
  ghost function TouchedSequence(items: map<nat, Value>, index: nat): seq<Value>
  {
    if Extent(items) == INDEX_RANGE || index == INDEX_RANGE - 1 then []
    else if index < Size(items) then View(items)
    else View(items) + Nulls(index + 1 - Size(items))
  }

  lemma TouchedView(items: map<nat, Value>, index: nat)
    requires Extent(items) <= INDEX_RANGE && index < INDEX_RANGE
    ensures View(Touched(items, index)) == TouchedSequence(items, index)
  {
    var touched := Touched(items, index);
    ExtentIs(touched, if index < Extent(items) then Extent(items) else index + 1);
    hide Extent;
  }

  /** Assigning to an element updates the sequence at that place. */
  lemma AssignedView(items: map<nat, Value>, index: nat, v: Value)
    requires index < Extent(items) < INDEX_RANGE
    ensures View(items[index := v]) == View(items)[index := v]
  {
    ExtentIs(items[index := v], Extent(items));
    hide Extent;
  }

  /** append() is appending if and only if the new size still is an index. */
  lemma AppendedView(items: map<nat, Value>, v: Value)
    requires Extent(items) <= INDEX_RANGE
    ensures View(items[Size(items) := v]) == View(items) + [v] <==> Extent(items) < INDEX_RANGE - 1
  {
    var size := Size(items);
    ExtentIs(items[size := v], if size == Extent(items) then size + 1 else Extent(items));
    hide Extent;
  }

  /** Behind the element before the largest index, append() empties the sequence. */
  lemma AppendLoses(x: Value, v: Value)
    ensures var items: map<nat, Value> := map[INDEX_RANGE - 2 := x];
            View(items) != [] && View(items[Size(items) := v]) == []
  {
    var items: map<nat, Value> := map[INDEX_RANGE - 2 := x];
    ExtentIs(items, INDEX_RANGE - 1);
    ExtentIs(items[Size(items) := v], INDEX_RANGE);
    hide Extent;
  }

  /** Shrinking six elements of which only the last has a key to three leaves none. */
  lemma ShrinkLoses(x: Value)
    ensures var items: map<nat, Value> := map[5 := x];
            View(items) == [Null, Null, Null, Null, Null, x] && View(Erased(items, 3, Size(items))) == []
  {
    var items: map<nat, Value> := map[5 := x];
    ExtentIs(items, 6);
    ExtentIs(Erased(items, 3, 6), 0);
    hide Extent;
  }

  /** Erasing the upper keys yields the prefix of that length if and only if its last element has
      a key; otherwise trailing nulls are lost. */
  lemma ErasedView(items: map<nat, Value>, n: nat)
    requires 0 < n <= Extent(items) < INDEX_RANGE
    ensures View(Erased(items, n, Size(items))) == View(items)[..n] <==> n - 1 in items
  {
    var erased := Erased(items, n, Size(items));
    assert forall k :: k in erased <==> k in items && k < n;
    if n - 1 in items {
      ExtentIs(erased, n);
    } else {
      assert Extent(erased) < n by {
        if Extent(erased) > 0 {
          assert Extent(erased) - 1 in erased;
        }
      }
    }
    hide Extent;
    if n - 1 in items {
      assert View(erased) == View(items)[..n];
    }
  }

  /** Every key below the size is present. */
  ghost predicate Dense(items: map<nat, Value>) {
    forall k: nat :: k in items <==> k < Extent(items)
  }

  /** resize() of a dense array to a smaller size always yields the prefix, and a dense array. */
  lemma DenseShrinks(items: map<nat, Value>, n: nat)
    requires Dense(items) && 0 < n <= Extent(items) < INDEX_RANGE
    ensures View(Erased(items, n, Size(items))) == View(items)[..n]
    ensures Dense(Erased(items, n, Size(items)))
  {
    ErasedView(items, n);
    ExtentIs(Erased(items, n, Size(items)), n);
  }

  /** append() keeps an array dense. */
  lemma DenseAppends(items: map<nat, Value>, v: Value)
    requires Dense(items) && Extent(items) < INDEX_RANGE
    ensures Dense(items[Size(items) := v])
  {
    ExtentIs(items[Size(items) := v], Size(items) + 1);
  }

  /** A value that an array operation changes in place. */
  class ArrayValue {
    var value: Value

    constructor (value: Value)
      ensures this.value == value
    {
      this.value := value;
    }

    /** type() is nullValue or arrayValue: what the operations assert. */
    ghost predicate IsArray()
      reads this
    {
      value.Null? || value.Arr?
    }

    ghost function Items(): map<nat, Value>
      reads this
    {
      if value.Arr? then value.items else map[]
    }

    method GetSize() returns (size: nat)
      ensures size == if value.Arr? then |View(value.items)| else if value.Obj? then |value.members| % INDEX_RANGE else 0
    {
      match value {
        case Arr(items) => size := Size(items);
        case Obj(members) => size := |members| % INDEX_RANGE;
        case _ => size := 0;
      }
    }

    /** operator[]( index ): makes sure that the element exists, and refers to it. */
    method At(index: nat) returns (element: Value)
      requires IsArray() && index < INDEX_RANGE
      modifies this
      ensures value == Arr(Touched(old(Items()), index))
      ensures element == ElementAt(old(Items()), index)
      ensures Extent(old(Items())) <= INDEX_RANGE ==> View(Items()) == TouchedSequence(old(Items()), index)
    {
      if value.Null? {
        value := Arr(map[]);
      }
      ghost var before := value.items;
      if index !in value.items {
        value := Arr(value.items[index := Null]);
      }
      element := value.items[index];
      assert value.items == Touched(before, index);
      if Extent(before) <= INDEX_RANGE {
        TouchedView(before, index);
      }
    }

    /** (*this)[size()] = element */
    method Append(element: Value)
      requires IsArray()
      modifies this
      ensures value == Arr(old(Items())[Size(old(Items())) := element])
      ensures Extent(old(Items())) < INDEX_RANGE - 1 ==> View(Items()) == View(old(Items())) + [element]
      ensures Dense(old(Items())) && Extent(old(Items())) < INDEX_RANGE - 1 ==> Dense(Items())
    {
      var size := GetSize();
      ghost var before := Items();
      var _ := At(size);
      value := Arr(value.items[size := element]);
      assert value.items == before[size := element];
      if Extent(before) < INDEX_RANGE - 1 {
        AppendedView(before, element);
        if Dense(before) {
          DenseAppends(before, element);
        }
      }
    }

    method Clear()
      requires IsArray() || value.Obj?
      modifies this
      ensures value == match old(value) case Arr(_) => Arr(map[]) case Obj(_) => Obj(map[]) case _ => old(value)
    {
      match value {
        case Arr(_) => value := Arr(map[]);
        case Obj(_) => value := Obj(map[]);
        case _ =>
      }
    }

    /** resize(): growing appends nulls; shrinking takes the prefix exactly if its last element
        has a key, which is also what the assertion at the end of the source checks. */
    method Resize(newSize: nat) returns (asserted: bool)
      requires IsArray() && newSize < INDEX_RANGE && Extent(Items()) <= INDEX_RANGE
      modifies this
      ensures value.Arr?
      ensures newSize == 0 ==> value == Arr(map[]) && asserted
      ensures newSize > Size(old(Items())) ==>
                && asserted
                && View(Items()) == if Extent(old(Items())) == INDEX_RANGE then []
                                    else View(old(Items())) + Nulls(newSize - Size(old(Items())))
      ensures 0 < newSize <= Size(old(Items())) ==>
                (View(Items()) == View(old(Items()))[..newSize] <==> newSize - 1 in old(Items()))
                && (asserted <==> newSize - 1 in old(Items()))
    {
      if value.Null? {
        value := Arr(map[]);
      }
      ghost var before := value.items;
      assert before == old(Items());
      asserted := true;
      var oldSize := GetSize();
      if newSize == 0 {
        Clear();
      } else if newSize > oldSize {
        var _ := At(newSize - 1);
      } else {
        var index := newSize;
        while index < oldSize
          invariant newSize <= index <= oldSize
          invariant value == Arr(Erased(before, newSize, index))
        {
          value := Arr(value.items - {index});
          index := index + 1;
        }
        assert value == Arr(Erased(before, newSize, oldSize));
        ErasedView(before, newSize);
        var size := GetSize();
        asserted := size == newSize;
        assert !asserted ==> View(value.items) != View(before)[..newSize];
        ErasedSize(before, newSize);
      }
    }
  }

  lemma ErasedSize(items: map<nat, Value>, n: nat)
    requires 0 < n <= Extent(items) < INDEX_RANGE
    ensures Size(Erased(items, n, Size(items))) == n <==> n - 1 in items
  {
    var erased := Erased(items, n, Size(items));
    assert forall k :: k in erased <==> k in items && k < n;
    if Extent(erased) > 0 {
      assert Extent(erased) - 1 in erased;
    }
  }

  // ---------- the reader builds dense arrays ----------

  /** All arrays in v are dense. */
  ghost predicate AllDense(v: Value) {
    match v
    case Arr(items) => Dense(items) && forall k :: k in items ==> AllDense(items[k])
    case Obj(members) => forall k :: k in members ==> AllDense(members[k])
    case _ => true
  }

  /** Whatever the document, errors included: reading into a value with dense arrays leaves one. */
  lemma {:induction false} ReaderBuildsDense(settings: Settings, doc: string, pos: nat, before: Value)
    requires pos <= |doc| && AllDense(before)
    ensures AllDense(ReadValue(settings, doc, pos, before).value)
    decreases |doc| - pos, 0
  {
    hide SkipComments, ReadMembers, ReadElements, DecodeString, DecodeNumber, ReadToken;
    var token := FirstToken(settings, doc, pos);
    match token.kind
    case ObjectBegin => MembersAreDense(settings, doc, token.end, map[], true);
    case ArrayBegin =>
      var start := SkipSpaces(doc, token.end);
      ExtentIs(map[], 0);
      ElementsAreDense(settings, doc, start, map[], 0);
    case NumberToken => NumbersAreDense(settings, TokenText(doc, token));
    case _ =>
  }

  lemma NumbersAreDense(settings: Settings, text: string)
    requires text != ""
    ensures var r := DecodeNumber(settings, text); r.Some? ==> AllDense(r.value)
  {
  }

  lemma {:induction false} MembersAreDense(settings: Settings, doc: string, pos: nat, members: map<CString, Value>, closable: bool)
    requires pos <= |doc| && AllDense(Obj(members))
    ensures AllDense(ReadMembers(settings, doc, pos, members, closable).value)
    decreases |doc| - pos, 0
  {
    hide ReadMemberValue, DecodeString, SkipComments, ReadToken, Recover, Dense;
    var token := SkipComments(doc, pos);
    if token.kind == StringToken && DecodeString(doc, token).Decoded? {
      var colon := ReadToken(doc, token.end);
      if colon.kind == MemberSeparator {
        MemberValueIsDense(settings, doc, colon.end, members, DecodeString(doc, token).text);
      }
    }
  }

  lemma {:induction false} MemberValueIsDense(settings: Settings, doc: string, pos: nat, members: map<CString, Value>, name: string)
    requires pos <= |doc| && AllDense(Obj(members))
    ensures AllDense(ReadMemberValue(settings, doc, pos, members, name).value)
    decreases |doc| - pos, 1
  {
    hide ReadMembers, ReadValue, SkipComments, ReadToken, Recover, Dense;
    var before := MemberAt(members, CStr(name));
    ReaderBuildsDense(settings, doc, pos, before);
    var child := ReadValue(settings, doc, pos, before);
    var members' := members[CStr(name) := child.value];
    assert AllDense(Obj(members'));
    var next := SkipComments(doc, child.pos);
    if child.error.None? {
      MembersAreDense(settings, doc, next.end, members', name == "");
    }
  }

  lemma {:induction false} ElementsAreDense(settings: Settings, doc: string, pos: nat, items: map<nat, Value>, index: nat)
    requires pos <= |doc| && AllDense(Arr(items)) && Extent(items) == index
    ensures AllDense(ReadElements(settings, doc, pos, items, index).value)
    decreases |doc| - pos, 1
  {
    hide ReadValue, SkipComments, ReadToken, Recover;
    ReaderBuildsDense(settings, doc, pos, Null);
    var child := ReadValue(settings, doc, pos, Null);
    var items' := items[index := child.value];
    assert forall k: nat :: k in items' <==> k < index + 1;
    ExtentIs(items', index + 1);
    assert AllDense(Arr(items'));
    hide Extent, Dense;
    var next := SkipComments(doc, child.pos);
    if child.error.None? && next.kind == ArraySeparator {
      ElementsAreDense(settings, doc, next.end, items', index + 1);
    }
  }
}
