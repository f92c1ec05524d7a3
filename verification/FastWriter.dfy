// Class FastWriter (json_writer.cpp).
module FastWriters {
  import opened Text
  import opened Values
  import opened Numbers
  import opened Strings
  import opened Quoting
  import opened Grammar
  import opened Printing

  function ValueToStringBool(value: bool): string {
    if value then "true" else "false"
  }

  class FastWriter {
    var document: string
    var yamlCompatibilityEnabled: bool
    const show: real -> string

    ghost function CurrentStyle(): Style
      reads this
    {
      Style(yamlCompatibilityEnabled, show)
    }

    constructor (show: real -> string)
      ensures document == "" && !yamlCompatibilityEnabled && this.show == show
    {
      this.show := show;
      document := "";
      yamlCompatibilityEnabled := false;
    }

    method EnableYamlCompatibility()
      modifies this`yamlCompatibilityEnabled
      ensures yamlCompatibilityEnabled
    {
      yamlCompatibilityEnabled := true;
    }

    /** write(): the text of the tree of the value, and a newline. */
    method Write(root: Value) returns (text: string)
      modifies this`document
      ensures text == document == JsonText(TreeOf(CurrentStyle(), root)) + "\n"
    {
      document := "";
      WriteValue(root);
      assert "" + JsonText(TreeOf(CurrentStyle(), root)) == JsonText(TreeOf(CurrentStyle(), root));
      document := document + "\n";
      text := document;
    }

    /** writeValue() appends the text of the tree of the value. */
    method WriteValue(value: Value)
      modifies this`document
      ensures document == old(document) + JsonText(TreeOf(CurrentStyle(), value))
      decreases !value.Null?, value, 1, 0
    {
      match value
      case Null => document := document + "null";
      case Int(i) =>
        var text := ValueToStringInt(i);
        NumberTreeText(i);
        document := document + text;
      case UInt(u) =>
        var text := ValueToStringUInt(u);
        NumberTreeText(u);
        document := document + text;
      case Real(r) =>
        document := document + show(r);
      case Str(s) =>
        var text := ValueToQuotedString(s);
        document := document + text;
      case Bool(b) => document := document + ValueToStringBool(b);
      case Arr(items) => WriteArray(value);
      case Obj(members) => WriteObject(value);
    }

    /** The array case of writeValue(). */
    method WriteArray(value: Value)
      requires value.Arr?
      modifies this`document
      ensures document == old(document) + JsonText(TreeOf(CurrentStyle(), value))
      decreases !value.Null?, value, 0, 1
    {
      ghost var style, n := CurrentStyle(), Count(value.items);
      ghost var whole := document + JsonText(TreeOf(style, value));
      document := document + "[";
      assert whole == document + Rest(style, value, 0) by { Assoc(old(document), "[", Rest(style, value, 0)); }
      assert Rest(style, value, n) == "]";
      var size := AsInt32(Size(value.items));
      assert n == if size < 0 then 0 else size;
      hide Count, Size, AsInt32, Rest, JsonText, TreeOf;
      var index := 0;
      while index < size
        invariant 0 <= index <= n
        invariant CurrentStyle() == style
        invariant whole == document + Rest(style, value, index)
      {
        RestStep(style, value, index);
        ghost var child, rest := JsonText(TreeOf(style, ElementAt(value.items, index))), Rest(style, value, index + 1);
        ghost var separator := if index > 0 then "," else "";
        Assoc(document, separator, child + rest);
        Assoc(document + separator, child, rest);
        if index > 0 {
          document := document + ",";
        } else {
          assert document + "" == document;
        }
        WriteValue(ElementAt(value.items, index));
        index := index + 1;
      }
      document := document + "]";
    }

    /** One turn of the loop over the members; rest is what is still to come. */
    method WriteMember(value: Value, name: CString, comma: bool, ghost rest: string)
      requires value.Obj? && name in value.members
      modifies this`document
      ensures document + rest == old(document) + ((if comma then "," else "")
                + (StringText(QuoteItems(name)) + ((if yamlCompatibilityEnabled then ": " else ":")
                  + (JsonText(TreeOf(CurrentStyle(), value.members[name])) + rest))))
      decreases !value.Null?, value, 0, 0
    {
      hide JsonText, TreeOf, StringText, QuoteItems;
      ghost var child := JsonText(TreeOf(CurrentStyle(), value.members[name]));
      MemberInPlace(document, if comma then "," else "", StringText(QuoteItems(name)),
                    if yamlCompatibilityEnabled then ": " else ":", child, rest);
      if comma {
        document := document + ",";
      } else {
        assert document + "" == document;
      }
      var text := ValueToQuotedString(name);
      document := document + text;
      document := document + if yamlCompatibilityEnabled then ": " else ":";
      WriteValue(value.members[name]);
    }

    /** The object case of writeValue(). */
    method WriteObject(value: Value)
      requires value.Obj?
      modifies this`document
      ensures document == old(document) + JsonText(TreeOf(CurrentStyle(), value))
      decreases !value.Null?, value, 0, 1
    {
      ghost var style := CurrentStyle();
      ghost var whole := document + JsonText(TreeOf(style, value));
      var names := MemberNames(value.members);
      document := document + "{";
      ObjectText(style, value);
      hide RestOfMembers, JsonText, TreeOf, QuoteItems, StringText, SortedNames;
      Assoc(old(document), "{", RestOfMembers(style, value, names, 0));
      var i := 0;
      while i < |names|
        invariant 0 <= i <= |names|
        invariant CurrentStyle() == style
        invariant whole == document + RestOfMembers(style, value, names, i)
      {
        RestOfMembersStep(style, value, names, i);
        ghost var rest := RestOfMembers(style, value, names, i + 1);
        WriteMember(value, names[i], i > 0, rest);
        i := i + 1;
      }
      document := document + "}";
    }
  }

  lemma MemberInPlace(document: string, separator: string, name: string, colon: string, child: string, rest: string)
    ensures document + (separator + (name + (colon + (child + rest))))
         == document + separator + name + colon + child + rest
  {
    Assoc(document, separator, name + (colon + (child + rest)));
    Assoc(document + separator, name, colon + (child + rest));
    Assoc(document + separator + name, colon, child + rest);
    Assoc(document + separator + name + colon, child, rest);
  }

  lemma NumberTreeText(i: int)
    ensures JsonText(NumberTree(i)) == IntegerText(i)
  {
    assert IntegerText(i) == (if i < 0 then "-" else "") + Decimal(if i < 0 then -i else i) + "" + "";
  }

  /** What is still to be printed of an array from element i on. */
  ghost function Rest(style: Style, v: Value, i: nat): string
    requires v.Arr?
  {
    var elems := ElemTrees(style, v, i, Count(v.items));
    if i == 0 then ElemsText(elems, "") else MoreElemsText(elems, "")
  }

  lemma RestStep(style: Style, v: Value, i: nat)
    requires v.Arr? && i < Count(v.items)
    ensures Rest(style, v, i)
         == (if i > 0 then "," else "") + (JsonText(TreeOf(style, ElementAt(v.items, i))) + Rest(style, v, i + 1))
  {
    var elems := ElemTrees(style, v, i, Count(v.items));
    assert elems[1..] == ElemTrees(style, v, i + 1, Count(v.items));
    hide JsonText, TreeOf;
    var child, rest := JsonText(TreeOf(style, ElementAt(v.items, i))), Rest(style, v, i + 1);
    EmptyFirst(rest);
    EmptyFirst(child + rest);
    assert elems != [] && elems[0] == Elem("", TreeOf(style, ElementAt(v.items, i)), "");
    assert ElemsText(elems, "") == child + rest;
    EmptyFirst(ElemsText(elems, ""));
  }

  lemma EmptyFirst(s: string)
    ensures "" + s == s
  {
  }

  /** What is still to be printed of an object from member i on. */
  ghost function RestOfMembers(style: Style, v: Value, names: seq<CString>, i: nat): string
    requires v.Obj? && (forall name :: name in names ==> name in v.members) && i <= |names|
  {
    var members := MemberTrees(style, v, names[i..]);
    if i == 0 then MembersText(members, "") else MoreMembersText(members, "")
  }

  lemma ObjectText(style: Style, v: Value)
    requires v.Obj?
    ensures var names := MemberNames(v.members);
            && JsonText(TreeOf(style, v)) == "{" + RestOfMembers(style, v, names, 0)
            && RestOfMembers(style, v, names, |names|) == (if names == [] then RestOfMembers(style, v, names, 0) else "}")
            && (names == [] ==> RestOfMembers(style, v, names, 0) == "}")
  {
    ObjectTreeText(style, v);
    var names := MemberNames(v.members);
    assert names[0..] == names && names[|names|..] == [];
    assert "" + "}" == "}";
    hide JsonText, TreeOf, SortedNames;
  }

  lemma ObjectTreeText(style: Style, v: Value)
    requires v.Obj?
    ensures JsonText(TreeOf(style, v)) == "{" + MembersText(MemberTrees(style, v, MemberNames(v.members)), "")
  {
    hide MembersText, MemberTrees, MemberNames;
  }

  lemma RestOfMembersStep(style: Style, v: Value, names: seq<CString>, i: nat)
    requires v.Obj? && (forall name :: name in names ==> name in v.members) && i < |names|
    ensures RestOfMembers(style, v, names, i)
         == (if i > 0 then "," else "") + (StringText(QuoteItems(names[i])) + ((if style.yaml then ": " else ":")
            + (JsonText(TreeOf(style, v.members[names[i]])) + RestOfMembers(style, v, names, i + 1))))
  {
    var members := MemberTrees(style, v, names[i..]);
    assert names[i..][1..] == names[i + 1..];
    assert members[1..] == MemberTrees(style, v, names[i + 1..]);
    hide JsonText, TreeOf, StringText, QuoteItems;
    var rest := RestOfMembers(style, v, names, i + 1);
    var child := JsonText(TreeOf(style, v.members[names[i]])) + rest;
    var space := if style.yaml then " " else "";
    EmptyFirst(rest);
    EmptyFirst(child);
    Assoc(":", space, child);
    assert ":" + space == if style.yaml then ": " else ":";
    var colon := ":" + (space + child);
    EmptyFirst(colon);
    EmptyFirst(StringText(QuoteItems(names[i])) + colon);
    assert MembersText(members, "") == StringText(QuoteItems(names[i])) + colon;
    EmptyFirst(MembersText(members, ""));
  }
}
