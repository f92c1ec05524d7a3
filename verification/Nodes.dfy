// Values inside values: the pointers on the node stack of the reader, as access paths.
module Nodes {
  import opened Text
  import opened Values
  import opened Parser

  datatype Step = Index(k: nat) | Name(name: CString)

  type Path = seq<Step>

  /** The value has a child at this step. */
  predicate HasChild(v: Value, step: Step) {
    match step
    case Index(k) => v.Arr? && k in v.items
    case Name(name) => v.Obj? && name in v.members
  }

  function Child(v: Value, step: Step): (child: Value)
    requires HasChild(v, step)
    ensures child < v
  {
    match step
    case Index(k) => v.items[k]
    case Name(name) => v.members[name]
  }

  function WithChild(v: Value, step: Step, child: Value): Value
    requires HasChild(v, step)
  {
    match step
    case Index(k) => Arr(v.items[k := child])
    case Name(name) => Obj(v.members[name := child])
  }

  predicate HasPath(v: Value, path: Path)
    decreases |path|
  {
    path == [] || (HasChild(v, path[0]) && HasPath(Child(v, path[0]), path[1..]))
  }

  /** What a pointer refers to. */
  function Get(v: Value, path: Path): Value
    requires HasPath(v, path)
    decreases |path|
  {
    if path == [] then v else Get(Child(v, path[0]), path[1..])
  }

  /** Assignment through a pointer. */
  function Put(v: Value, path: Path, x: Value): Value
    requires HasPath(v, path)
    decreases |path|
  {
    if path == [] then x else WithChild(v, path[0], Put(Child(v, path[0]), path[1..], x))
  }

  /** An assigned value is found again, and a second assignment overwrites the first. */
  lemma {:induction false} PutThenGet(v: Value, path: Path, x: Value, y: Value)
    requires HasPath(v, path)
    ensures HasPath(Put(v, path, x), path)
    ensures Get(Put(v, path, x), path) == x
    ensures Put(Put(v, path, x), path, y) == Put(v, path, y)
    decreases |path|
  {
    if path != [] {
      var child := Child(v, path[0]);
      PutThenGet(child, path[1..], x, y);
      var put := Put(v, path, x);
      assert Child(put, path[0]) == Put(child, path[1..], x);
      assert WithChild(put, path[0], Put(child, path[1..], y)) == WithChild(v, path[0], Put(child, path[1..], y));
    }
  }

  /** A pointer to a child: reading and assigning go through the parent. */
  lemma {:induction false} ChildPath(v: Value, path: Path, step: Step, x: Value)
    requires HasPath(v, path) && HasChild(Get(v, path), step)
    ensures HasPath(v, path + [step])
    ensures Get(v, path + [step]) == Child(Get(v, path), step)
    ensures Put(v, path + [step], x) == Put(v, path, WithChild(Get(v, path), step, x))
    decreases |path|
  {
    if path == [] {
      assert path + [step] == [step] && [step][1..] == [];
    } else {
      assert (path + [step])[1..] == path[1..] + [step];
      ChildPath(Child(v, path[0]), path[1..], step, x);
    }
  }

  /** Assigning a value to itself changes nothing. */
  lemma {:induction false} PutBack(v: Value, path: Path)
    requires HasPath(v, path)
    ensures Put(v, path, Get(v, path)) == v
    decreases |path|
  {
    if path != [] {
      PutBack(Child(v, path[0]), path[1..]);
      var step := path[0];
      assert WithChild(v, step, Child(v, step)) == v by {
        match step
        case Index(k) => assert v.items[k := v.items[k]] == v.items;
        case Name(name) => assert v.members[name := v.members[name]] == v.members;
      }
    }
  }
}
