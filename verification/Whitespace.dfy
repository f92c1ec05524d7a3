// White space carries no meaning: removing it changes neither the tokens nor the denotation.
module Whitespace {
  import opened Text
  import opened Values
  import opened Strings
  import opened Parser
  import opened Grammar
  import opened Tokens

  /** The tree without its white space. */
  ghost function Compact(t: Json): Json
    decreases t
  {
    match t
    case JArray(elems, _) => JArray(CompactElems(elems), "")
    case JObject(members, _) => JObject(CompactMembers(members), "")
    case _ => t
  }

  ghost function CompactElems(elems: seq<Elem>): seq<Elem>
    decreases elems
  {
    if elems == [] then [] else [Elem("", Compact(elems[0].value), "")] + CompactElems(elems[1..])
  }

  ghost function CompactMembers(members: seq<Member>): seq<Member>
    decreases members
  {
    if members == [] then []
    else [Member("", members[0].name, "", "", Compact(members[0].value), "")] + CompactMembers(members[1..])
  }

  /** Only white space stands where white space may stand. */
  ghost predicate Spaced(t: Json)
    decreases t
  {
    match t
    case JArray(elems, pad) => AllSpaces(pad) && SpacedElems(elems)
    case JObject(members, pad) => AllSpaces(pad) && SpacedMembers(members)
    case _ => true
  }

  ghost predicate SpacedElems(elems: seq<Elem>)
    decreases elems
  {
    elems == [] ||
    (AllSpaces(elems[0].before) && AllSpaces(elems[0].after) && Spaced(elems[0].value) && SpacedElems(elems[1..]))
  }

  ghost predicate SpacedMembers(members: seq<Member>)
    decreases members
  {
    members == [] ||
    (var m := members[0];
     && AllSpaces(m.before) && AllSpaces(m.afterName) && AllSpaces(m.beforeValue) && AllSpaces(m.after)
     && Spaced(m.value) && SpacedMembers(members[1..]))
  }

  /** A spaced tree is as valid as the compact one, and means the same. */
  lemma {:induction false} SpacesDoNotMatter(settings: Settings, t: Json)
    requires Spaced(t)
    ensures ValidJson(settings, t) <==> ValidJson(settings, Compact(t))
    ensures ValidJson(settings, t) ==> Denote(settings, t) == Denote(settings, Compact(t))
    decreases t, 2
  {
    match t
    case JArray(elems, _) => ElemSpacesDoNotMatter(settings, elems, map[], 0);
    case JObject(members, _) => MemberSpacesDoNotMatter(settings, members, map[]);
    case _ =>
  }

  lemma {:induction false} ElemSpacesDoNotMatter(settings: Settings, elems: seq<Elem>, items: map<nat, Value>, index: nat)
    requires SpacedElems(elems)
    ensures ValidElems(settings, elems) <==> ValidElems(settings, CompactElems(elems))
    ensures ValidElems(settings, elems) ==>
              AddElems(settings, elems, items, index) == AddElems(settings, CompactElems(elems), items, index)
    decreases elems, 1
  {
    if elems != [] {
      hide ValidJson, Denote, Compact, Spaced;
      SpacesDoNotMatter(settings, elems[0].value);
      var compact := CompactElems(elems);
      assert compact[1..] == CompactElems(elems[1..]);
      ElemSpacesDoNotMatter(settings, elems[1..],
        if ValidJson(settings, elems[0].value) then items[index := Denote(settings, elems[0].value)] else items, index + 1);
    }
  }

  lemma {:induction false} MemberSpacesDoNotMatter(settings: Settings, members: seq<Member>, known: map<CString, Value>)
    requires SpacedMembers(members)
    ensures ValidMembers(settings, members) <==> ValidMembers(settings, CompactMembers(members))
    ensures ValidMembers(settings, members) ==>
              AddMembers(settings, members, known) == AddMembers(settings, CompactMembers(members), known)
    decreases members, 1
  {
    if members != [] {
      hide ValidJson, Denote, Compact, Spaced;
      var m := members[0];
      SpacesDoNotMatter(settings, m.value);
      var compact := CompactMembers(members);
      assert compact[1..] == CompactMembers(members[1..]);
      MemberSpacesDoNotMatter(settings, members[1..],
        if ValidItems(m.name) && ValidJson(settings, m.value) then known[NameOf(m) := Denote(settings, m.value)] else known);
    }
  }

  /** Removing the white space keeps the tokens. */
  lemma {:induction false} CompactKeepsTokens(t: Json, others: seq<string>)
    ensures TokensOf(Compact(t), others) == TokensOf(t, others)
    decreases t, 2
  {
    match t
    case JArray(elems, _) => CompactKeepsElemTokens(elems, others);
    case JObject(members, _) => CompactKeepsMemberTokens(members, others);
    case _ =>
  }

  lemma {:induction false} CompactKeepsElemTokens(elems: seq<Elem>, others: seq<string>)
    ensures ElemTokens(CompactElems(elems), others) == ElemTokens(elems, others)
    decreases elems, 1
  {
    if elems != [] {
      hide TokensOf, Compact;
      var compact := CompactElems(elems);
      assert compact[1..] == CompactElems(elems[1..]);
      CompactKeepsElemTokens(elems[1..], others);
      CompactKeepsTokens(elems[0].value, MoreElemTokens(elems[1..], others));
    }
  }

  lemma {:induction false} CompactKeepsMemberTokens(members: seq<Member>, others: seq<string>)
    ensures MemberTokens(CompactMembers(members), others) == MemberTokens(members, others)
    decreases members, 1
  {
    if members != [] {
      hide TokensOf, Compact, StringText;
      var compact := CompactMembers(members);
      assert compact[1..] == CompactMembers(members[1..]);
      CompactKeepsMemberTokens(members[1..], others);
      CompactKeepsTokens(members[0].value, MoreMemberTokens(members[1..], others));
    }
  }
}
