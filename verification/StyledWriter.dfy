// Class StyledWriter (json_writer.cpp), for values without comments.
module StyledWriters {
  import opened Text
  import opened Values
  import opened Numbers
  import opened Strings
  import opened Quoting
  import opened Grammar
  import opened Printing
  import opened FastWriters
  import opened Styling
  import opened Layout

  class StyledWriter {
    var document: string
    var childValues: seq<string>
    var indentString: string
    var addChildValues: bool
    const show: real -> string

    ghost function Writing(): Style {
      Style(false, show)
    }

    constructor (show: real -> string)
      ensures this.show == show
    {
      this.show := show;
      document, childValues, indentString, addChildValues := "", [], "", false;
    }

    /** write(): the pretty text of the value, and a newline. */
    method Write(root: Value) returns (text: string)
      requires ArraysWithin(root, MAX_SIZE)
      modifies this
      ensures text == document == Styled(Writing(), "", "", root) + "\n"
      ensures Inked(Writing(), root) ==> text == Pretty(Writing(), root, 0) + "\n"
      ensures indentString == ""
    {
      document := "";
      addChildValues := false;
      indentString := "";
      WriteValue(root);
      document := document + "\n";
      text := document;
      hide Styled, Pretty, Inked, ArraysWithin;
      if Inked(Writing(), root) {
        PrettyDocument(Writing(), root);
      }
    }

    method PushValue(value: string)
      modifies this`childValues, this`document
      ensures if addChildValues then childValues == old(childValues) + [value] && document == old(document)
              else document == old(document) + value && childValues == old(childValues)
    {
      if addChildValues {
        childValues := childValues + [value];
      } else {
        document := document + value;
      }
    }

    method PutIndent()
      modifies this`document
      ensures document == WriteIndent(old(document), indentString)
    {
      if document != "" {
        var last := document[|document| - 1];
        if last == ' ' {
          return;
        }
        if last != '\n' {
          document := document + ['\n'];
        }
      }
      assert document == "" ==> document + indentString == indentString;
      document := document + indentString;
    }

    method WriteWithIndent(value: string)
      modifies this`document
      ensures document == WriteIndent(old(document), indentString) + value
    {
      PutIndent();
      document := document + value;
    }

    method Indent()
      modifies this`indentString
      ensures indentString == old(indentString) + INDENT
    {
      indentString := indentString + INDENT;
    }

    method Unindent()
      requires |indentString| >= |INDENT|
      modifies this`indentString
      ensures indentString == old(indentString)[..|old(indentString)| - |INDENT|]
    {
      indentString := indentString[..|indentString| - |INDENT|];
    }

    /** writeValue(): in the mode that collects child values, the value is simple and becomes one
        entry; otherwise it is written to the document.  The indentation is restored. */
    method WriteValue(value: Value)
      requires ArraysWithin(value, MAX_SIZE)
      requires addChildValues ==> IsSimple(value)
      modifies this
      ensures addChildValues == old(addChildValues) && indentString == old(indentString)
      ensures addChildValues ==> document == old(document) && childValues == old(childValues) + [Plain(Writing(), value)]
      ensures !addChildValues ==> document == Styled(Writing(), old(document), indentString, value)
      decreases !value.Null?, value, 3, 0
    {
      match value
      case Null => PushValue("null");
      case Int(i) =>
        var text := ValueToStringInt(i);
        NumberTreeText(i);
        PushValue(text);
      case UInt(u) =>
        var text := ValueToStringUInt(u);
        NumberTreeText(u);
        PushValue(text);
      case Real(r) =>
        PushValue(show(r));
      case Str(s) =>
        var text := ValueToQuotedString(s);
        PushValue(text);
      case Bool(b) => PushValue(ValueToStringBool(b));
      case Arr(items) => WriteArrayValue(value);
      case Obj(members) => WriteObject(value);
    }

    /** The object case of writeValue(). */
    method WriteObject(value: Value)
      requires ArraysWithin(value, MAX_SIZE) && value.Obj?
      requires addChildValues ==> IsSimple(value)
      modifies this
      ensures addChildValues == old(addChildValues) && indentString == old(indentString)
      ensures addChildValues ==> document == old(document) && childValues == old(childValues) + [Plain(Writing(), value)]
      ensures !addChildValues ==> document == Styled(Writing(), old(document), indentString, value)
      decreases !value.Null?, value, 2, 0
    {
      var names := MemberNames(value.members);
      if names == [] {
        assert value.members.Keys == {};
        assert Plain(Writing(), value) == "{}";
        PushValue("{}");
      } else {
        assert !IsSimple(value) by { assert names[0] in value.members; }
        WriteMembers(value, names);
      }
    }

    /** The loop over the members, between the braces. */
    method WriteMembers(value: Value, names: seq<CString>)
      requires ArraysWithin(value, MAX_SIZE) && value.Obj? && !IsSimple(value) && !addChildValues
      requires names == MemberNames(value.members) && names != []
      modifies this
      ensures !addChildValues && indentString == old(indentString)
      ensures document == Styled(Writing(), old(document), indentString, value)
      decreases !value.Null?, value, 1, 0
    {
      hide ArraysWithin, Styled, StyledMembers, MemberNames, SortedNames, WriteIndent, IsSimple;
      ghost var style, outer := Writing(), indentString;
      ghost var inner := StyledMembers(style, WriteIndent(document, outer) + "{", outer + INDENT, value, names);
      StyledObject(style, document, outer, value);
      WriteWithIndent("{");
      Indent();
      WriteMemberLines(value, names);
      Unindent();
      assert indentString == outer;
      WriteWithIndent("}");
    }

    /** The loop over the members. */
    method WriteMemberLines(value: Value, names: seq<CString>)
      requires ArraysWithin(value, MAX_SIZE) && value.Obj? && !addChildValues
      requires names != [] && forall name :: name in names ==> name in value.members
      modifies this
      ensures !addChildValues && indentString == old(indentString)
      ensures document == StyledMembers(Writing(), old(document), indentString, value, names)
      decreases !value.Null?, value, 0, 1
    {
      hide ArraysWithin, Styled, StyledMembers, WriteIndent, StringText, QuoteItems;
      assert names[0..] == names;
      var i := 0;
      while i < |names|
        invariant 0 <= i <= |names|
        invariant !addChildValues && indentString == old(indentString)
        invariant StyledMembers(Writing(), old(document), indentString, value, names)
               == if i < |names| then StyledMembers(Writing(), document, indentString, value, names[i..]) else document
      {
        StyledMembersStep(Writing(), document, indentString, value, names, i);
        WriteMember(value, names[i]);
        i := i + 1;
        if i == |names| {
          break;
        }
        document := document + ",";
      }
    }

    /** One turn of the loop over the members. */
    method WriteMember(value: Value, name: CString)
      requires ArraysWithin(value, MAX_SIZE) && value.Obj? && name in value.members && !addChildValues
      modifies this
      ensures !addChildValues && indentString == old(indentString)
      ensures document
           == Styled(Writing(), WriteIndent(old(document), indentString) + StringText(QuoteItems(name)) + " : ",
                     indentString, value.members[name])
      decreases !value.Null?, value, 0, 0
    {
      MembersWithin(value, name);
      var text := ValueToQuotedString(name);
      WriteWithIndent(text);
      document := document + " : ";
      WriteValue(value.members[name]);
    }

    method WriteArrayValue(value: Value)
      requires ArraysWithin(value, MAX_SIZE) && value.Arr?
      requires addChildValues ==> IsSimple(value)
      modifies this
      ensures addChildValues == old(addChildValues) && indentString == old(indentString)
      ensures addChildValues ==> document == old(document) && childValues == old(childValues) + [Plain(Writing(), value)]
      ensures !addChildValues ==> document == Styled(Writing(), old(document), indentString, value)
      decreases !value.Null?, value, 2, 0
    {
      var size := Size(value.items);
      if size == 0 {
        assert Plain(Writing(), value) == "[]";
        PushValue("[]");
      } else {
        var isArrayMultiLine := IsMultineArray(value);
        if isArrayMultiLine {
          WriteLines(value);
        } else {
          WriteLine(value);
        }
      }
    }

    /** The multi-line branch of writeArrayValue(): every element is written from the buffer, if
        the buffer was filled, and otherwise recursively. */
    method WriteLines(value: Value)
      requires ArraysWithin(value, MAX_SIZE) && value.Arr? && !IsSimple(value) && !addChildValues
      requires IsMultiLine(Writing(), value)
      requires childValues != [] ==> Buffered(Writing(), value, childValues)
      modifies this
      ensures !addChildValues && indentString == old(indentString)
      ensures document == Styled(Writing(), old(document), indentString, value)
      decreases !value.Null?, value, 1, 0
    {
      ghost var style, outer, size := Writing(), indentString, Size(value.items);
      ghost var inner := StyledElems(style, WriteIndent(document, outer) + "[", outer + INDENT, value, 0, size);
      assert Styled(style, document, outer, value) == WriteIndent(inner, outer) + "]";
      hide ArraysWithin, IsMultiLine, WriteIndent, Styled, StyledElems, Buffered, IsSimple, Size;
      WriteWithIndent("[");
      Indent();
      var hasChildValue := childValues != [];
      WriteElements(value, hasChildValue);
      Unindent();
      assert indentString == outer;
      WriteWithIndent("]");
    }

    /** The loop over the lines of an array. */
    method WriteElements(value: Value, hasChildValue: bool)
      requires ArraysWithin(value, MAX_SIZE) && value.Arr? && !addChildValues && Size(value.items) > 0
      requires hasChildValue ==> Buffered(Writing(), value, childValues)
      modifies this
      ensures !addChildValues && indentString == old(indentString)
      ensures document == StyledElems(Writing(), old(document), indentString, value, 0, Size(value.items))
      decreases !value.Null?, value, 0, 1
    {
      var size := Size(value.items);
      hide ArraysWithin, WriteIndent, Styled, StyledElems, Buffered, Size;
      var index := 0;
      while index < size
        invariant 0 <= index <= size
        invariant !addChildValues && indentString == old(indentString)
        invariant hasChildValue ==> Buffered(Writing(), value, childValues)
        invariant StyledElems(Writing(), old(document), indentString, value, 0, size)
               == if index < size then StyledElems(Writing(), document, indentString, value, index, size) else document
      {
        StyledElemsStep(Writing(), document, indentString, value, index, size);
        WriteElement(value, index, hasChildValue);
        index := index + 1;
        if index == size {
          break;
        }
        document := document + ",";
      }
    }

    /** One turn of the loop over the lines of an array. */
    method WriteElement(value: Value, index: nat, hasChildValue: bool)
      requires ArraysWithin(value, MAX_SIZE) && value.Arr? && !addChildValues && index < Size(value.items)
      requires hasChildValue ==> Buffered(Writing(), value, childValues)
      modifies this
      ensures !addChildValues && indentString == old(indentString)
      ensures hasChildValue ==> childValues == old(childValues)
      ensures document
           == Styled(Writing(), WriteIndent(old(document), indentString), indentString, ElementAt(value.items, index))
      decreases !value.Null?, value, 0, 0
    {
      var childValue := ElementAt(value.items, index);
      ElementsWithin(value, index);
      if hasChildValue {
        SimpleIsPlain(Writing(), WriteIndent(document, indentString), indentString, childValue);
        WriteWithIndent(childValues[index]);
      } else {
        PutIndent();
        WriteValue(childValue);
      }
    }

    /** The single-line branch of writeArrayValue(). */
    method WriteLine(value: Value)
      requires value.Arr? && !IsSimple(value) && !addChildValues
      requires !IsMultiLine(Writing(), value) && Buffered(Writing(), value, childValues)
      modifies this`document
      ensures document == Styled(Writing(), old(document), indentString, value)
    {
      ghost var style, n := Writing(), Size(value.items);
      ghost var joined := Joined(style, value, 0, n);
      assert Styled(style, document, indentString, value) == document + ("[ " + (joined + " ]"));
      hide IsMultiLine, Styled, IsSimple, Plain, Size;
      assert |childValues| == n;
      document := document + "[ ";
      ghost var open := document;
      var index := 0;
      ghost var done := "";
      while index < Size(value.items)
        invariant 0 <= index <= n
        invariant document == open + done
        invariant joined == done + Joined(style, value, index, n)
      {
        ghost var item, rest := childValues[index], Joined(style, value, index + 1, n);
        ghost var separator := if index > 0 then ", " else "";
        Assoc(done, separator, item + rest);
        Assoc(done + separator, item, rest);
        Assoc(open, done, separator);
        Assoc(open, done + separator, item);
        if index > 0 {
          document := document + ", ";
        } else {
          assert done + "" == done && "" + (item + rest) == item + rest;
        }
        document := document + childValues[index];
        done := done + separator + item;
        index := index + 1;
      }
      assert done + "" == done;
      document := document + " ]";
      Assoc(open, joined, " ]");
      Assoc(old(document), "[ ", joined + " ]");
    }

    /** isMultineArray(): decides the layout, and fills the buffer with the texts of all elements
        unless the number of elements or a nested container decides it. */
    method IsMultineArray(value: Value) returns (isMultiLine: bool)
      requires ArraysWithin(value, MAX_SIZE) && value.Arr? && !addChildValues && !IsSimple(value)
      modifies this
      ensures !addChildValues && indentString == old(indentString) && document == old(document)
      ensures isMultiLine <==> IsMultiLine(Writing(), value)
      ensures if TooMany(value.items) || HasNested(value.items) then childValues == []
              else Buffered(Writing(), value, childValues)
      decreases !value.Null?, value, 1, 0
    {
      ghost var style := Writing();
      var size := Size(value.items);
      isMultiLine := size * 3 >= RIGHT_MARGIN;
      childValues := [];
      var index := 0;
      while index < size && !isMultiLine
        invariant 0 <= index <= size
        invariant isMultiLine ==> TooMany(value.items) || HasNested(value.items)
        invariant !isMultiLine ==> !TooMany(value.items) && forall k :: 0 <= k < index ==> IsSimple(ElementAt(value.items, k))
        decreases size - index
      {
        var childValue := ElementAt(value.items, index);
        isMultiLine := isMultiLine ||
                       ((childValue.Arr? && Size(childValue.items) > 0) || (childValue.Obj? && childValue.members != map[]));
        index := index + 1;
      }
      if !isMultiLine {
        assert !HasNested(value.items);
        var lineLength := FillBuffer(value);
        isMultiLine := isMultiLine || lineLength >= RIGHT_MARGIN;
      }
    }

    /** Collects the texts of the elements, and their length on one line. */
    method FillBuffer(value: Value) returns (lineLength: int)
      requires ArraysWithin(value, MAX_SIZE) && value.Arr? && !addChildValues && !HasNested(value.items) && childValues == []
      modifies this
      ensures !addChildValues && indentString == old(indentString) && document == old(document)
      ensures lineLength == LineLength(Writing(), value) && Buffered(Writing(), value, childValues)
      decreases !value.Null?, value, 0, 1
    {
      hide ArraysWithin, Plain, IsSimple, HasNested, Size, Styled;
      ghost var style := Writing();
      var size := Size(value.items);
      NotNested(value.items);
      addChildValues := true;
      lineLength := 4 + (size as int - 1) * 2;
      var index := 0;
      while index < size
        invariant 0 <= index <= size
        invariant addChildValues && indentString == old(indentString) && document == old(document)
        invariant |childValues| == index
        invariant forall k :: 0 <= k < index ==> childValues[k] == Plain(style, ElementAt(value.items, k))
        invariant lineLength + TotalLength(style, value, index, size) == LineLength(style, value)
        decreases size - index
      {
        ElementsWithin(value, index);
        WriteValue(ElementAt(value.items, index));
        lineLength := lineLength + |childValues[index]|;
        index := index + 1;
      }
      addChildValues := false;
    }
  }

  lemma NotNested(items: map<nat, Value>)
    requires !HasNested(items)
    ensures forall k :: 0 <= k < Size(items) ==> IsSimple(ElementAt(items, k))
  {
    hide Size;
  }

  /** The buffer holds the texts of the elements of an array of simple values, one entry each. */
  ghost predicate Buffered(style: Style, v: Value, childValues: seq<string>)
    requires v.Arr?
  {
    && |childValues| == Size(v.items)
    && forall k :: 0 <= k < |childValues| ==>
         IsSimple(ElementAt(v.items, k)) && childValues[k] == Plain(style, ElementAt(v.items, k))
  }

  lemma StyledElemsStep(style: Style, document: string, indent: string, v: Value, i: nat, n: nat)
    requires v.Arr? && i < n
    ensures StyledElems(style, document, indent, v, i, n)
         == var written := Styled(style, WriteIndent(document, indent), indent, ElementAt(v.items, i));
            if i + 1 == n then written else StyledElems(style, written + ",", indent, v, i + 1, n)
  {
  }

  lemma StyledMembersStep(style: Style, document: string, indent: string, v: Value, names: seq<CString>, i: nat)
    requires v.Obj? && (forall name :: name in names ==> name in v.members) && i < |names|
    ensures StyledMembers(style, document, indent, v, names[i..])
         == var name := WriteIndent(document, indent) + StringText(QuoteItems(names[i])) + " : ";
            var written := Styled(style, name, indent, v.members[names[i]]);
            if i + 1 == |names| then written else StyledMembers(style, written + ",", indent, v, names[i + 1..])
  {
    assert names[i..][0] == names[i] && names[i..][1..] == names[i + 1..];
  }

  lemma SimpleIsPlain(style: Style, document: string, indent: string, v: Value)
    requires IsSimple(v)
    ensures Styled(style, document, indent, v) == document + Plain(style, v)
  {
  }

  lemma ElementsWithin(v: Value, k: nat)
    requires v.Arr? && ArraysWithin(v, MAX_SIZE)
    ensures ArraysWithin(ElementAt(v.items, k), MAX_SIZE)
  {
  }

  lemma MembersWithin(v: Value, name: CString)
    requires v.Obj? && ArraysWithin(v, MAX_SIZE) && name in v.members
    ensures ArraysWithin(v.members[name], MAX_SIZE)
  {
  }
}
