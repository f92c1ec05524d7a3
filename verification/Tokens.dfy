// The tokens of a JSON text do not depend on its white space.
module Tokens {
  import opened Text
  import opened Scanner
  import opened Strings
  import opened Parser
  import opened Grammar
  import opened Completeness

  /** The texts of the tokens of a tree, followed by others. */
  ghost function TokensOf(t: Json, others: seq<string>): seq<string>
    decreases t
  {
    match t
    case JArray(elems, _) => ["["] + ElemTokens(elems, others)
    case JObject(members, _) => ["{"] + MemberTokens(members, others)
    case _ => [JsonText(t)] + others
  }

  ghost function ElemTokens(elems: seq<Elem>, others: seq<string>): seq<string>
    decreases elems, 1
  {
    if elems == [] then ["]"] + others
    else TokensOf(elems[0].value, MoreElemTokens(elems[1..], others))
  }

  ghost function MoreElemTokens(elems: seq<Elem>, others: seq<string>): seq<string>
    decreases elems, 2
  {
    if elems == [] then ["]"] + others else [","] + ElemTokens(elems, others)
  }

  ghost function MemberTokens(members: seq<Member>, others: seq<string>): seq<string>
    decreases members, 1
  {
    if members == [] then ["}"] + others
    else
      [StringText(members[0].name)] + ([":"] + TokensOf(members[0].value, MoreMemberTokens(members[1..], others)))
  }

  ghost function MoreMemberTokens(members: seq<Member>, others: seq<string>): seq<string>
    decreases members, 2
  {
    if members == [] then ["}"] + others else [","] + MemberTokens(members, others)
  }

  /** A structural character behind white space, then the other tokens. */
  lemma StructuralToken(doc: string, i: nat, j: nat, end: nat, ws: string, c: char)
    requires At(doc, i, j, ws) && AllSpaces(ws) && At(doc, j, end, [c]) && Structural(c) != ErrorToken
    ensures i <= end <= |doc| && Tokenize(doc, i) == [[c]] + Tokenize(doc, end)
    ensures Delimited(doc, i)
  {
    ReadStructuralAfterSpaces(doc, i, j, end, ws, c);
    TokenizeAfterSpaces(doc, i, j, ws);
    TokenizeOne(doc, j, end, [c]);
  }

  /** The scanner splits the text of a tree into the tokens of the tree. */
  lemma {:induction false} TokenizesTree(settings: Settings, doc: string, start: nat, end: nat, t: Json)
    requires ValidJson(settings, t) && At(doc, start, end, JsonText(t)) && Ends(doc, end, t)
    ensures start <= end <= |doc| && Tokenize(doc, start) == TokensOf(t, Tokenize(doc, end))
    decreases t, 3
  {
    AtBound(doc, start, end, JsonText(t));
    hide At, ReadToken, NumberText, StringText, InGrammar, Tokenize, DecodeString;
    match t
    case JNull =>
      ReadNull(doc, start, end);
      TokenizeOne(doc, start, end, JsonText(t));
    case JBool(b) =>
      ReadBool(doc, start, end, b);
      TokenizeOne(doc, start, end, JsonText(t));
    case JNumber(n) =>
      NumberTextShape(n);
      ReadNumberAt(doc, start, end, NumberText(n));
      TokenizeOne(doc, start, end, JsonText(t));
    case JString(items) =>
      StringIsReadBack(doc, start, end, items);
      TokenizeOne(doc, start, end, JsonText(t));
    case JArray(elems, pad) =>
      var next := AtSplit(doc, start, end, "[", ElemsText(elems, pad));
      ReadStructural(doc, start, next, '[');
      TokenizeOne(doc, start, next, "[");
      TokenizesElems(settings, doc, next, end, elems, pad);
    case JObject(members, pad) =>
      var next := AtSplit(doc, start, end, "{", MembersText(members, pad));
      ReadStructural(doc, start, next, '{');
      TokenizeOne(doc, start, next, "{");
      TokenizesMembers(settings, doc, next, end, members, pad);
  }

  lemma {:induction false} TokenizesElems(settings: Settings, doc: string, pos: nat, end: nat, elems: seq<Elem>, pad: string)
    requires ValidElems(settings, elems) && AllSpaces(pad) && At(doc, pos, end, ElemsText(elems, pad))
    ensures pos <= end <= |doc| && Tokenize(doc, pos) == ElemTokens(elems, Tokenize(doc, end))
    decreases elems, 1
  {
    AtBound(doc, pos, end, ElemsText(elems, pad));
    hide At, Tokenize, TokensOf, MoreElemTokens, JsonText, ValidJson, MoreElemsText;
    if elems == [] {
      var m := AtSplit(doc, pos, end, pad, "]");
      StructuralToken(doc, pos, m, end, pad, ']');
    } else {
      var e, rest := elems[0], elems[1..];
      var m1 := AtSplit(doc, pos, end, e.before, JsonText(e.value) + (e.after + MoreElemsText(rest, pad)));
      var m2 := AtSplit(doc, m1, end, JsonText(e.value), e.after + MoreElemsText(rest, pad));
      var m3 := AtSplit(doc, m2, end, e.after, MoreElemsText(rest, pad));
      TokenizeAfterSpaces(doc, pos, m1, e.before);
      TokenizesMoreElems(settings, doc, m2, m3, end, e.after, rest, pad);
      TokenizesTree(settings, doc, m1, m2, e.value);
    }
  }

  lemma {:induction false} TokenizesMoreElems(settings: Settings, doc: string, i: nat, j: nat, end: nat, ws: string,
                                              rest: seq<Elem>, pad: string)
    requires ValidElems(settings, rest) && AllSpaces(ws) && AllSpaces(pad)
    requires At(doc, i, j, ws) && At(doc, j, end, MoreElemsText(rest, pad))
    ensures i <= end <= |doc| && Tokenize(doc, i) == MoreElemTokens(rest, Tokenize(doc, end))
    ensures Delimited(doc, i)
    decreases rest, 2
  {
    AtBound(doc, i, j, ws);
    AtBound(doc, j, end, MoreElemsText(rest, pad));
    hide At, Tokenize, ElemTokens, ElemsText, ValidElems, Delimited;
    if rest == [] {
      var m := AtSplit(doc, j, end, pad, "]");
      StructuralToken(doc, j, m, end, pad, ']');
      TokenizeAfterSpaces(doc, i, j, ws);
      SpacesDelimit(doc, i, j, ws);
    } else {
      var m := AtSplit(doc, j, end, ",", ElemsText(rest, pad));
      StructuralToken(doc, i, j, m, ws, ',');
      TokenizesElems(settings, doc, m, end, rest, pad);
    }
  }

  lemma {:induction false} TokenizesMembers(settings: Settings, doc: string, pos: nat, end: nat, members: seq<Member>, pad: string)
    requires ValidMembers(settings, members) && AllSpaces(pad) && At(doc, pos, end, MembersText(members, pad))
    ensures pos <= end <= |doc| && Tokenize(doc, pos) == MemberTokens(members, Tokenize(doc, end))
    decreases members, 1
  {
    hide At, Tokenize, TokensOf, MoreMemberTokens, JsonText, ValidJson, MoreMembersText, StringText, ItemsBytes, DecodeString, ReadToken,
         AllSpaces;
    AtBound(doc, pos, end, MembersText(members, pad));
    if members == [] {
      var m := AtSplit(doc, pos, end, pad, "}");
      StructuralToken(doc, pos, m, end, pad, '}');
    } else {
      var m, rest := members[0], members[1..];
      var more := MoreMembersText(rest, pad);
      var s5 := JsonText(m.value) + (m.after + more);
      var s3 := m.afterName + (":" + (m.beforeValue + s5));
      var i1 := AtSplit(doc, pos, end, m.before, StringText(m.name) + s3);
      var i2 := AtSplit(doc, i1, end, StringText(m.name), s3);
      var i3 := AtSplit(doc, i2, end, m.afterName, ":" + (m.beforeValue + s5));
      var i4 := AtSplit(doc, i3, end, ":", m.beforeValue + s5);
      var i5 := AtSplit(doc, i4, end, m.beforeValue, s5);
      var i6 := AtSplit(doc, i5, end, JsonText(m.value), m.after + more);
      var i7 := AtSplit(doc, i6, end, m.after, more);
      TokenizeAfterSpaces(doc, pos, i1, m.before);
      StringIsReadBack(doc, i1, i2, m.name);
      TokenizeOne(doc, i1, i2, StringText(m.name));
      StructuralToken(doc, i2, i3, i4, m.afterName, ':');
      TokenizeAfterSpaces(doc, i4, i5, m.beforeValue);
      TokenizesMoreMembers(settings, doc, i6, i7, end, m.after, rest, pad);
      TokenizesTree(settings, doc, i5, i6, m.value);
    }
  }

  lemma {:induction false} TokenizesMoreMembers(settings: Settings, doc: string, i: nat, j: nat, end: nat, ws: string,
                                                rest: seq<Member>, pad: string)
    requires ValidMembers(settings, rest) && AllSpaces(ws) && AllSpaces(pad)
    requires At(doc, i, j, ws) && At(doc, j, end, MoreMembersText(rest, pad))
    ensures i <= end <= |doc| && Tokenize(doc, i) == MoreMemberTokens(rest, Tokenize(doc, end))
    ensures Delimited(doc, i)
    decreases rest, 2
  {
    AtBound(doc, i, j, ws);
    AtBound(doc, j, end, MoreMembersText(rest, pad));
    hide At, Tokenize, MemberTokens, MembersText, ValidMembers, Delimited;
    if rest == [] {
      var m := AtSplit(doc, j, end, pad, "}");
      StructuralToken(doc, j, m, end, pad, '}');
      TokenizeAfterSpaces(doc, i, j, ws);
      SpacesDelimit(doc, i, j, ws);
    } else {
      var m := AtSplit(doc, j, end, ",", MembersText(rest, pad));
      StructuralToken(doc, i, j, m, ws, ',');
      TokenizesMembers(settings, doc, m, end, rest, pad);
    }
  }

  /** A JSON text tokenizes to the tokens of its tree. */
  lemma TokenizesText(settings: Settings, doc: string, t: Json)
    requires IsJsonText(settings, doc, t)
    ensures Tokenize(doc, 0) == TokensOf(t, [])
  {
    var ws, ws' :| AllSpaces(ws) && AllSpaces(ws') && doc == ws + JsonText(t) + ws';
    AtSlice(doc, 0, |doc|, doc);
    assert Delimited(doc, |doc|) && Tokenize(doc, |doc|) == [];
    hide JsonText, TokensOf, ValidJson, ReadToken, Tokenize, At, Delimited, AllSpaces;
    var end := AtSplit(doc, 0, |doc|, ws + JsonText(t), ws');
    var start := AtSplit(doc, 0, end, ws, JsonText(t));
    AtBound(doc, 0, end, ws + JsonText(t));
    AtBound(doc, 0, start, ws);
    SpacesDelimit(doc, end, |doc|, ws');
    TokenizeAfterSpaces(doc, 0, start, ws);
    TokenizeAfterSpaces(doc, end, |doc|, ws');
    TokenizesTree(settings, doc, start, end, t);
  }
}
