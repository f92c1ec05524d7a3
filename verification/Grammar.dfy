// The JSON grammar of RFC 8259 as concrete syntax trees, the value a tree denotes, and the
// theorem that the reader accepts the text of every tree and yields that value.
module Grammar {
  import opened Text
  import opened Values
  import opened Numbers
  import opened Scanner
  import opened Comments
  import opened Strings
  import opened Parser

  /** A value, with the white space the grammar allows around structural characters. */
  datatype Json =
    | JNull
    | JBool(b: bool)
    | JNumber(number: Number)
    | JString(items: seq<Item>)
    | JArray(elems: seq<Elem>, pad: string)
    | JObject(members: seq<Member>, pad: string)

  /** Section 6: [ minus ] int [ frac ] [ exp ] */
  datatype Number = Number(negative: bool, digits: string, frac: string, exp: string)

  datatype Elem = Elem(before: string, value: Json, after: string)

  datatype Member = Member(
    before: string, name: seq<Item>, afterName: string, beforeValue: string, value: Json, after: string)

  // ---------- texts ----------

  ghost function NumberText(n: Number): string {
    (if n.negative then "-" else "") + n.digits + n.frac + n.exp
  }

  ghost function JsonText(t: Json): string
    decreases t
  {
    match t
    case JNull => "null"
    case JBool(b) => if b then "true" else "false"
    case JNumber(n) => NumberText(n)
    case JString(items) => StringText(items)
    case JArray(elems, pad) => "[" + ElemsText(elems, pad)
    case JObject(members, pad) => "{" + MembersText(members, pad)
  }

  /** The elements up to the closing bracket. */
  ghost function ElemsText(elems: seq<Elem>, pad: string): string
    decreases elems, 1
  {
    if elems == [] then pad + "]"
    else elems[0].before + (JsonText(elems[0].value) + (elems[0].after + MoreElemsText(elems[1..], pad)))
  }

  ghost function MoreElemsText(elems: seq<Elem>, pad: string): string
    decreases elems, 2
  {
    if elems == [] then pad + "]" else "," + ElemsText(elems, pad)
  }

  /** The members up to the closing brace. */
  ghost function MembersText(members: seq<Member>, pad: string): string
    decreases members, 1
  {
    if members == [] then pad + "}"
    else
      var m := members[0];
      m.before + (StringText(m.name) + (m.afterName + (":" + (m.beforeValue +
        (JsonText(m.value) + (m.after + MoreMembersText(members[1..], pad)))))))
  }

  ghost function MoreMembersText(members: seq<Member>, pad: string): string
    decreases members, 2
  {
    if members == [] then pad + "}" else "," + MembersText(members, pad)
  }

  // ---------- well-formedness ----------

  /** frac = decimal-point 1*DIGIT */
  ghost predicate ValidFrac(s: string) {
    s == "" || (|s| >= 2 && s[0] == '.' && AllDigits(s[1..]))
  }

  /** exp = e [ minus / plus ] 1*DIGIT */
  ghost predicate ValidExp(s: string) {
    s == "" || (|s| >= 2 && (s[0] == 'e' || s[0] == 'E')
                && (AllDigits(s[1..]) || (|s| >= 3 && (s[1] == '+' || s[1] == '-') && AllDigits(s[2..]))))
  }

  ghost predicate IsInteger(n: Number) {
    n.frac == "" && n.exp == ""
  }

  ghost predicate InGrammar(n: Number) {
    && n.digits != "" && AllDigits(n.digits) && (n.digits[0] == '0' ==> |n.digits| == 1)
    && ValidFrac(n.frac) && ValidExp(n.exp)
  }

  /** In the grammar; and either an integer of 64 bits, or a number that goes to the C library
      and is accepted by it. */
  ghost predicate ValidNumber(settings: Settings, n: Number) {
    && InGrammar(n)
    && (|| (IsInteger(n) && Denotes(n.digits) <= MaxMagnitude(n.negative))
        || (!(IsInteger(n) && Wraps(Denotes(n.digits), MaxMagnitude(n.negative)))
            && settings.scan(NumberText(n)).Some?))
  }

  /** The parts of a number text, in the grammar if the text is. */
  ghost function Parts(text: string): (n: Number)
    ensures NumberText(n) == text
  {
    if exists n :: InGrammar(n) && NumberText(n) == text then
      var n :| InGrammar(n) && NumberText(n) == text; n
    else
      assert "" + text + "" + "" == text;
      Number(false, text, "", "")
  }

  ghost predicate ValidJson(settings: Settings, t: Json)
    decreases t
  {
    match t
    case JNumber(n) => ValidNumber(settings, n)
    case JString(items) => ValidItems(items)
    case JArray(elems, pad) => AllSpaces(pad) && ValidElems(settings, elems)
    case JObject(members, pad) => AllSpaces(pad) && ValidMembers(settings, members)
    case _ => true
  }

  ghost predicate ValidElems(settings: Settings, elems: seq<Elem>)
    decreases elems
  {
    elems == [] ||
    (var e := elems[0];
     && AllSpaces(e.before) && AllSpaces(e.after)
     && ValidJson(settings, e.value) && ValidElems(settings, elems[1..]))
  }

  ghost predicate ValidMembers(settings: Settings, members: seq<Member>)
    decreases members
  {
    members == [] ||
    (var m := members[0];
     && AllSpaces(m.before) && AllSpaces(m.afterName) && AllSpaces(m.beforeValue) && AllSpaces(m.after)
     && ValidItems(m.name) && ValidJson(settings, m.value) && ValidMembers(settings, members[1..]))
  }

  // ---------- the grammar of the reader ----------

  /** A text of number characters that starts like a number.  If it has the form of an integer it
      may have leading zeros or no digits at all, and if it has not, the C library has to accept it. */
  ghost predicate LooseNumber(settings: Settings, n: Number) {
    var text := NumberText(n);
    && text != "" && (IsDigit(text[0]) || text[0] == '-') && (forall k :: 0 <= k < |text| ==> IsNumberChar(text[k]))
    && (|| (IsIntegerText(n) && (IsStored(n) || settings.scan(text).Some?))
        || (LooksDouble(text) && settings.scan(text).Some?))
  }

  ghost predicate IsIntegerText(n: Number) {
    IsInteger(n) && AllDigits(n.digits)
  }

  /** The integer is stored as one: it fits, or it is one of those that wrap. */
  ghost predicate IsStored(n: Number)
    requires IsIntegerText(n)
  {
    Denotes(n.digits) <= MaxMagnitude(n.negative) || Wraps(Denotes(n.digits), MaxMagnitude(n.negative))
  }

  /** Behind the last member there may be a comma, if its name is empty. */
  ghost predicate LoosePad(last: Member, pad: string) {
    Filler(true, pad) || (ItemsBytes(last.name) == "" && CommaPad(pad))
  }

  ghost predicate CommaPad(pad: string) {
    exists pre, post :: Filler(true, pre) && Filler(true, post) && pad == pre + ("," + post)
  }

  /** The trees whose texts the reader takes: those of the grammar, and more.  Comments may stand in front of values
      if they are allowed, and behind values, in front of names and in empty objects in any case. */
  ghost predicate Loose(settings: Settings, t: Json)
    decreases t
  {
    match t
    case JNumber(n) => LooseNumber(settings, n)
    case JString(items) => LooseItems(items)
    case JArray(elems, pad) => (if elems == [] then AllSpaces(pad) else Filler(true, pad)) && LooseElems(settings, elems)
    case JObject(members, pad) => LooseMembers(settings, members, pad)
    case _ => true
  }

  ghost predicate LooseElems(settings: Settings, elems: seq<Elem>)
    decreases elems
  {
    elems == [] ||
    (var e := elems[0];
     && Filler(settings.allowComments, e.before) && Filler(true, e.after)
     && Loose(settings, e.value) && LooseElems(settings, elems[1..]))
  }

  ghost predicate LooseMembers(settings: Settings, members: seq<Member>, pad: string)
    decreases members
  {
    if members == [] then Filler(true, pad)
    else
      var m := members[0];
      && Filler(true, m.before) && AllSpaces(m.afterName)
      && Filler(settings.allowComments, m.beforeValue) && Filler(true, m.after)
      && LooseItems(m.name) && Loose(settings, m.value)
      && if |members| == 1 then LoosePad(m, pad) else LooseMembers(settings, members[1..], pad)
  }

  /** The grammar of RFC 8259 is part of it. */
  lemma {:induction false} ValidIsLoose(settings: Settings, t: Json)
    requires ValidJson(settings, t)
    ensures Loose(settings, t)
    decreases t, 2
  {
    match t
    case JNumber(n) => ValidNumberIsLoose(settings, n);
    case JString(items) => ValidItemsAreLoose(items);
    case JArray(elems, _) => ValidElemsAreLoose(settings, elems);
    case JObject(members, pad) => ValidMembersAreLoose(settings, members, pad);
    case _ =>
  }

  lemma ValidNumberIsLoose(settings: Settings, n: Number)
    requires ValidNumber(settings, n)
    ensures LooseNumber(settings, n)
  {
    NumberTextShape(n);
  }

  lemma {:induction false} ValidElemsAreLoose(settings: Settings, elems: seq<Elem>)
    requires ValidElems(settings, elems)
    ensures LooseElems(settings, elems)
    decreases elems, 1
  {
    if elems != [] {
      ValidIsLoose(settings, elems[0].value);
      ValidElemsAreLoose(settings, elems[1..]);
    }
  }

  lemma {:induction false} ValidMembersAreLoose(settings: Settings, members: seq<Member>, pad: string)
    requires ValidMembers(settings, members) && AllSpaces(pad)
    ensures LooseMembers(settings, members, pad)
    decreases members, 1
  {
    if members != [] {
      ValidItemsAreLoose(members[0].name);
      ValidIsLoose(settings, members[0].value);
      ValidMembersAreLoose(settings, members[1..], pad);
    }
  }

  /** Where the parts of a number text stand. */
  lemma NumberTextParts(n: Number)
    ensures var s, i := NumberText(n), (if n.negative then 1 else 0);
            var j := i + |n.digits|;
            var k := j + |n.frac|;
            && |s| == k + |n.exp| && s[i..j] == n.digits && s[j..k] == n.frac && s[k..] == n.exp
            && (n.negative ==> s[0] == '-')
  {
  }

  /** A number text consists of number characters, and contains a point or an exponent unless it
      is an integer. */
  lemma NumberTextShape(n: Number)
    requires InGrammar(n)
    ensures var s := NumberText(n);
            && s != "" && (IsDigit(s[0]) || s[0] == '-') && (s[0] == '-' <==> n.negative)
            && (forall k :: 0 <= k < |s| ==> IsNumberChar(s[k]))
            && (LooksDouble(s) <==> !IsInteger(n))
  {
    var s, i := NumberText(n), (if n.negative then 1 else 0);
    var j := i + |n.digits|;
    var k := j + |n.frac|;
    NumberTextParts(n);
    hide NumberText;
    FracChars(n.frac);
    ExpChars(n.exp);
    forall x | 0 <= x < |s| ensures IsNumberChar(s[x]) {
      if i <= x < j {
        assert s[x] == s[i..j][x - i];
      } else if j <= x < k {
        assert s[x] == s[j..k][x - j];
      } else if k <= x {
        assert s[x] == s[k..][x - k];
      }
    }
    assert s[i] == s[i..j][0];
    if n.frac != "" {
      assert s[j] == s[j..k][0];
      assert IsDoubleChar(s[j], j == 0);
    } else if n.exp != "" {
      assert s[k] == s[k..][0];
      assert IsDoubleChar(s[k], k == 0);
    } else {
      forall x | 0 <= x < |s| ensures !IsDoubleChar(s[x], x == 0) {
        assert x >= i ==> s[x] == s[i..j][x - i];
      }
    }
  }

  lemma FracChars(s: string)
    requires ValidFrac(s)
    ensures forall k :: 0 <= k < |s| ==> IsNumberChar(s[k])
  {
    forall k | 0 <= k < |s| ensures IsNumberChar(s[k]) {
      assert k > 0 ==> s[k] == s[1..][k - 1];
    }
  }

  lemma ExpChars(s: string)
    requires ValidExp(s)
    ensures forall k :: 0 <= k < |s| ==> IsNumberChar(s[k])
  {
    forall k | 0 <= k < |s| ensures IsNumberChar(s[k]) {
      assert k > 0 ==> s[k] == s[1..][k - 1];
      assert k > 1 ==> s[k] == s[2..][k - 2];
    }
  }

  // ---------- denotations ----------

  /** An integer denotes itself if it fits, a wrapped one if it is stored nevertheless; other
      numbers denote what the C library makes of them. */
  ghost function DenoteNumber(settings: Settings, n: Number): Value {
    if IsIntegerText(n) && IsStored(n) then
      if Denotes(n.digits) <= MaxMagnitude(n.negative) then IntegerValue(Signed(n.negative, n.digits))
      else StoredInteger(n.negative, WrapU64(Denotes(n.digits)))
    else
      match settings.scan(NumberText(n))
      case Some(r) => Real(r)
      case None => Null
  }

  /** The value a tree denotes.  A C string ends at the first U+0000 it would contain. */
  ghost function Denote(settings: Settings, t: Json): Value
    decreases t
  {
    match t
    case JNull => Null
    case JBool(b) => Bool(b)
    case JNumber(n) => DenoteNumber(settings, n)
    case JString(items) => Str(CStr(ItemsBytes(items)))
    case JArray(elems, _) => Arr(AddElems(settings, elems, map[], 0))
    case JObject(members, _) => Obj(AddMembers(settings, members, map[]))
  }

  ghost function AddElems(settings: Settings, elems: seq<Elem>, items: map<nat, Value>, index: nat): map<nat, Value>
    decreases elems
  {
    if elems == [] then items
    else AddElems(settings, elems[1..], items[index := Denote(settings, elems[0].value)], index + 1)
  }

  ghost function NameOf(m: Member): CString {
    CStr(ItemsBytes(m.name))
  }

  ghost predicate Named(members: seq<Member>, name: CString) {
    exists m :: m in members && NameOf(m) == name
  }

  ghost function AddMembers(settings: Settings, members: seq<Member>, known: map<CString, Value>): map<CString, Value>
    decreases members
  {
    if members == [] then known
    else AddMembers(settings, members[1..], known[NameOf(members[0]) := Denote(settings, members[0].value)])
  }

  /** An array denotes the sequence of its elements. */
  lemma {:induction false} ArrayDenotesSequence(settings: Settings, elems: seq<Elem>, items: map<nat, Value>, index: nat)
    requires forall k: nat :: k in items <==> k < index
    ensures var r := AddElems(settings, elems, items, index);
            && (forall k: nat :: k in r <==> k < index + |elems|)
            && (forall k :: k in items ==> r[k] == items[k])
            && (forall k :: 0 <= k < |elems| ==> r[index + k] == Denote(settings, elems[k].value))
    decreases |elems|
  {
    if elems != [] {
      var items' := items[index := Denote(settings, elems[0].value)];
      ArrayDenotesSequence(settings, elems[1..], items', index + 1);
      var r := AddElems(settings, elems, items, index);
      assert r[index] == items'[index];
      forall k | 0 <= k < |elems|
        ensures r[index + k] == Denote(settings, elems[k].value)
      {
        assert k > 0 ==> elems[k] == elems[1..][k - 1] && index + k == index + 1 + (k - 1);
      }
    }
  }

  /** The member at k is the last one with its name. */
  ghost predicate IsLast(members: seq<Member>, k: nat)
    requires k < |members|
  {
    forall j :: k < j < |members| ==> NameOf(members[j]) != NameOf(members[k])
  }

  /** Names that no further member has keep their value; the other names get new ones. */
  lemma {:induction false} OtherNamesStay(settings: Settings, members: seq<Member>, known: map<CString, Value>, name: CString)
    ensures name in AddMembers(settings, members, known) <==> name in known || Named(members, name)
    ensures name in known && !Named(members, name) ==> AddMembers(settings, members, known)[name] == known[name]
    decreases |members|
  {
    if members != [] {
      var first, rest := members[0], members[1..];
      assert forall m :: m in members <==> m == first || m in rest;
      hide Denote, NameOf;
      OtherNamesStay(settings, rest, known[NameOf(first) := Denote(settings, first.value)], name);
    }
  }

  /** An object denotes, under each name, the value of the last member with that name. */
  lemma {:induction false} LastMemberWins(settings: Settings, members: seq<Member>, known: map<CString, Value>, k: nat)
    requires k < |members| && IsLast(members, k)
    ensures NameOf(members[k]) in AddMembers(settings, members, known)
    ensures AddMembers(settings, members, known)[NameOf(members[k])] == Denote(settings, members[k].value)
    decreases |members|
  {
    hide Denote, NameOf;
    var first, rest := members[0], members[1..];
    assert members == [first] + rest;
    var known' := known[NameOf(first) := Denote(settings, first.value)];
    if k == 0 {
      OtherNamesStay(settings, rest, known', NameOf(first));
      forall m | m in rest ensures NameOf(m) != NameOf(first) {
        var j :| 0 <= j < |rest| && rest[j] == m;
        assert members[j + 1] == m;
      }
    } else {
      assert members[k] == rest[k - 1];
      forall j | k - 1 < j < |rest| ensures NameOf(rest[j]) != NameOf(rest[k - 1]) {
        assert rest[j] == members[j + 1];
      }
      LastMemberWins(settings, rest, known', k - 1);
    }
  }
}
