// The converse of Completeness: what the reader accepts is the text of a tree of its grammar,
// and the root is what the tree denotes.
module Acceptance {
  import opened Text
  import opened Values
  import opened Numbers
  import opened Scanner
  import opened Comments
  import opened Unicode
  import opened Strings
  import opened Parser
  import opened Grammar
  import opened Completeness

  /** Tokens a value can end with. */
  ghost predicate EndsValue(kind: TokenType) {
    || kind == NumberToken || kind == StringToken || kind == TrueToken || kind == FalseToken || kind == NullToken
    || kind == ObjectEnd || kind == ArrayEnd
  }

  /** The open brackets, true for a brace, behind a token of that kind. */
  ghost function After(open: seq<bool>, kind: TokenType): seq<bool> {
    match kind
    case ObjectBegin => open + [true]
    case ArrayBegin => open + [false]
    case ObjectEnd => if open == [] then [] else open[..|open| - 1]
    case ArrayEnd => if open == [] then [] else open[..|open| - 1]
    case _ => open
  }

  /** In an object, a comment that comes next is followed by a comma or the closing brace. */
  ghost predicate Settled(doc: string, i: nat, open: seq<bool>)
    requires i <= |doc|
  {
    open != [] && open[|open| - 1] && ReadToken(doc, i).kind == CommentToken ==>
      SkipComments(doc, i).kind == ArraySeparator || SkipComments(doc, i).kind == ObjectEnd
  }

  /** So it is behind every token a value can end with, up to the end of the stream. Elsewhere in a document comments
      may stand anywhere. */
  ghost predicate Orderly(doc: string, i: nat, open: seq<bool>)
    requires i <= |doc|
    decreases |doc| - i
  {
    var t := ReadToken(doc, i);
    t.kind == EndOfStream ||
    ((EndsValue(t.kind) ==> Settled(doc, t.end, After(open, t.kind))) && Orderly(doc, t.end, After(open, t.kind)))
  }

  /** No token from position i up to the end of the stream is a comment. */
  ghost predicate CommentFree(doc: string, i: nat)
    requires i <= |doc|
    decreases |doc| - i
  {
    var t := ReadToken(doc, i);
    t.kind != CommentToken && (t.kind == EndOfStream || CommentFree(doc, t.end))
  }

  /** A document without comments is orderly. */
  lemma {:induction false} CommentFreeIsOrderly(doc: string, i: nat, open: seq<bool>)
    requires i <= |doc| && CommentFree(doc, i)
    ensures Orderly(doc, i, open)
    decreases |doc| - i
  {
    hide ReadToken;
    var t := ReadToken(doc, i);
    if t.kind != EndOfStream {
      CommentFreeIsOrderly(doc, t.end, After(open, t.kind));
    }
  }

  // ---------- tokens ----------

  lemma AtJoin(doc: string, i: nat, m: nat, j: nat, a: string, b: string)
    requires At(doc, i, m, a) && At(doc, m, j, b)
    ensures At(doc, i, j, a + b)
  {
  }

  lemma AtHere(doc: string, i: nat, j: nat)
    requires i <= j <= |doc|
    ensures At(doc, i, j, doc[i..j])
  {
  }

  lemma {:induction false} SkippedAreSpaces(doc: string, i: nat)
    requires i <= |doc|
    ensures AllSpaces(doc[i..SkipSpaces(doc, i)])
    decreases |doc| - i
  {
    if i < |doc| && IsSpace(doc[i]) {
      SkippedAreSpaces(doc, i + 1);
      assert doc[i..SkipSpaces(doc, i)] == [doc[i]] + doc[i + 1..SkipSpaces(doc, i)];
    }
  }

  lemma SpacesInFront(doc: string, i: nat) returns (ws: string)
    requires i <= |doc|
    ensures At(doc, i, ReadToken(doc, i).start, ws) && AllSpaces(ws) && ReadToken(doc, i).start == SkipSpaces(doc, i)
  {
    SkippedAreSpaces(doc, i);
    ws := doc[i..SkipSpaces(doc, i)];
    AtHere(doc, i, SkipSpaces(doc, i));
  }

  lemma {:induction false} BlockBody(doc: string, i: nat) returns (body: string)
    requires i <= |doc| && ScanCStyle(doc, i).ok
    ensures At(doc, i, ScanCStyle(doc, i).end, body + "*/") && NoBlockEnd(body)
    decreases |doc| - i
  {
    if doc[i] == '*' && Peek(doc, i + 1) == '/' {
      body := "";
      assert body + "*/" == "*/";
    } else {
      var rest := BlockBody(doc, i + 1);
      body := [doc[i]] + rest;
      assert body + "*/" == [doc[i]] + (rest + "*/");
      AtJoin(doc, i, i + 1, ScanCStyle(doc, i).end, [doc[i]], rest + "*/");
      assert doc[i + 1] == (rest + "*/")[0];
      forall k | 0 <= k < |body| - 1 ensures !(body[k] == '*' && body[k + 1] == '/') {
        assert k > 0 ==> body[k] == rest[k - 1] && body[k + 1] == rest[k];
        assert k == 0 ==> body[1] == rest[0] == doc[i + 1];
      }
    }
  }

  lemma {:induction false} LineBody(doc: string, i: nat) returns (body: string, end: char)
    requires i <= |doc| && (SkipLine(doc, i) < |doc| || (SkipLine(doc, i) == |doc| > i && IsLineBreak(doc[|doc| - 1])))
    ensures At(doc, i, SkipLine(doc, i), body + [end]) && NoLineBreak(body) && IsLineBreak(end)
    decreases |doc| - i
  {
    if IsLineBreak(doc[i]) {
      body, end := "", doc[i];
      assert body + [end] == [doc[i]];
    } else {
      var rest;
      rest, end := LineBody(doc, i + 1);
      body := [doc[i]] + rest;
      assert body + [end] == [doc[i]] + (rest + [end]);
      AtJoin(doc, i, i + 1, SkipLine(doc, i), [doc[i]], rest + [end]);
      forall k | 0 <= k < |body| ensures !IsLineBreak(body[k]) {
        assert k > 0 ==> body[k] == rest[k - 1];
      }
    }
  }

  lemma NothingAtEnd(doc: string)
    ensures ReadToken(doc, |doc|).kind == EndOfStream
  {
  }

  /** A comment token has the text of a comment, unless it is a line that ends with the document. */
  lemma CommentText(doc: string, i: nat) returns (c: string)
    requires i <= |doc| && ReadToken(doc, i).kind == CommentToken
    ensures var t := ReadToken(doc, i); t.end < |doc| ==> At(doc, t.start, t.end, c) && IsComment(c)
  {
    var t := ReadToken(doc, i);
    c := doc[t.start..t.end];
    AtHere(doc, t.start, t.end);
    if t.end < |doc| {
      if Peek(doc, t.start + 1) == '*' {
        var body := BlockBody(doc, t.start + 2);
        AtJoin(doc, t.start, t.start + 2, t.end, "/*", body + "*/");
        AtSlice(doc, t.start, t.end, "/*" + (body + "*/"));
        assert BlockComment(c, body);
      } else {
        var body, end := LineBody(doc, t.start + 2);
        AtJoin(doc, t.start, t.start + 2, t.end, "//", body + [end]);
        AtSlice(doc, t.start, t.end, "//" + (body + [end]));
        assert LineComment(c, body, end);
      }
    }
  }

  /** What is skipped in front of a token is a filler. */
  lemma {:induction false} Gap(doc: string, i: nat, open: seq<bool>) returns (s: string)
    requires i <= |doc| && Orderly(doc, i, open)
    ensures var t := SkipComments(doc, i);
            t.kind != EndOfStream ==>
              && At(doc, i, t.start, s) && Filler(true, s)
              && (EndsValue(t.kind) ==> Settled(doc, t.end, After(open, t.kind))) && Orderly(doc, t.end, After(open, t.kind))
    ensures ReadToken(doc, i).kind != CommentToken ==> SkipComments(doc, i) == ReadToken(doc, i) && AllSpaces(s)
    decreases |doc| - i
  {
    var t := ReadToken(doc, i);
    s := SpacesInFront(doc, i);
    if t.kind == CommentToken {
      var c := CommentText(doc, i);
      hide ReadToken, IsComment, At;
      var rest := Gap(doc, t.end, open);
      if t.end == |doc| {
        NothingAtEnd(doc);
      } else {
        FillerJoin(s, c, rest);
        var u := SkipComments(doc, t.end);
        if u.kind != EndOfStream {
          AtJoin(doc, t.start, t.end, u.start, c, rest);
          AtJoin(doc, i, t.start, u.start, s, c + rest);
        }
      }
      s := s + (c + rest);
    }
  }

  lemma FillerJoin(sp: string, c: string, rest: string)
    requires AllSpaces(sp) && IsComment(c)
    ensures Filler(true, rest) ==> Filler(true, sp + (c + rest))
  {
    CommentStart(c);
    assert Begins(sp + (c + rest), sp, c, rest);
  }

  lemma StructuralText(doc: string, i: nat, c: char)
    requires i <= |doc| && Structural(c) != ErrorToken && ReadToken(doc, i).kind == Structural(c)
    ensures At(doc, ReadToken(doc, i).start, ReadToken(doc, i).end, [c])
  {
  }

  lemma ColonText(doc: string, i: nat)
    requires i <= |doc| && ReadToken(doc, i).kind == MemberSeparator
    ensures At(doc, ReadToken(doc, i).start, ReadToken(doc, i).end, ":")
  {
  }

  lemma WordAt(doc: string, start: nat, first: string, word: string)
    requires start < |doc| && first == [doc[start]] && Matches(doc, start + 1, word)
    ensures At(doc, start, start + 1 + |word|, first + word)
  {
    AtSlice(doc, start + 1, start + 1 + |word|, word);
    AtJoin(doc, start, start + 1, start + 1 + |word|, first, word);
  }

  lemma WordText(doc: string, i: nat)
    requires i <= |doc| && ReadToken(doc, i).kind in {NullToken, TrueToken, FalseToken}
    ensures var t := ReadToken(doc, i);
            At(doc, t.start, t.end, if t.kind == NullToken then "null" else if t.kind == TrueToken then "true" else "false")
  {
    hide Matches, At;
    var t := ReadToken(doc, i);
    match t.kind
    case NullToken => WordAt(doc, t.start, "n", "ull"); assert "n" + "ull" == "null";
    case TrueToken => WordAt(doc, t.start, "t", "rue"); assert "t" + "rue" == "true";
    case FalseToken => WordAt(doc, t.start, "f", "alse"); assert "f" + "alse" == "false";
  }

  // ---------- numbers ----------

  lemma {:induction false} NumberStops(doc: string, i: nat)
    requires i <= |doc|
    ensures !IsNumberChar(Peek(doc, SkipNumber(doc, i)))
    decreases |doc| - i
  {
    if i < |doc| && IsNumberChar(doc[i]) {
      NumberStops(doc, i + 1);
    }
  }

  lemma NumberTokenText(doc: string, i: nat)
    requires i <= |doc| && ReadToken(doc, i).kind == NumberToken
    ensures var t := ReadToken(doc, i);
            var text := TokenText(doc, t);
            && text != "" && (IsDigit(text[0]) || text[0] == '-') && (forall k :: 0 <= k < |text| ==> IsNumberChar(text[k]))
            && Delimited(doc, t.end) && At(doc, t.start, t.end, text)
  {
    var t := ReadToken(doc, i);
    NumberStops(doc, t.start + 1);
    AtHere(doc, t.start, t.end);
  }

  /** What decodeNumber accepts is a number of the grammar of the reader. */
  lemma NumberIsLoose(settings: Settings, text: string) returns (n: Number)
    requires text != "" && (IsDigit(text[0]) || text[0] == '-')
    requires forall k :: 0 <= k < |text| ==> IsNumberChar(text[k])
    requires DecodeNumber(settings, text).Some?
    ensures NumberText(n) == text && LooseNumber(settings, n)
    ensures DecodeNumber(settings, text) == Some(DenoteNumber(settings, n))
  {
    n := if text[0] == '-' then Number(true, text[1..], "", "") else Number(false, text, "", "");
    assert NumberText(n) == text;
    DigitsOrDouble(n, text);
    hide LooksDouble, Denotes, Wraps, IsNumberChar, AllDigits;
    if !LooksDouble(text) {
      IntegerIsDecoded(settings, n);
    }
  }

  /** Behind the sign there are only digits, unless a character belongs to a double. */
  lemma DigitsOrDouble(n: Number, text: string)
    requires text == (if n.negative then "-" else "") + n.digits && (n.negative || n.digits == "" || n.digits[0] != '-')
    requires forall k :: 0 <= k < |text| ==> IsNumberChar(text[k])
    ensures AllDigits(n.digits) <==> !LooksDouble(text)
  {
    if LooksDouble(text) {
      var k :| 0 <= k < |text| && IsDoubleChar(text[k], k == 0);
      assert !IsDigit(n.digits[if n.negative then k - 1 else k]);
    } else {
      forall k | 0 <= k < |n.digits| ensures IsDigit(n.digits[k]) {
        var j := if n.negative then k + 1 else k;
        assert text[j] == n.digits[k] && IsNumberChar(text[j]) && !IsDoubleChar(text[j], j == 0);
      }
    }
  }

  // ---------- strings ----------

  lemma Hex4Here(doc: string, i: nat, end: nat) returns (h: string)
    requires i <= end <= |doc| && DecodeHex4(doc, i, end).CodePoint?
    ensures IsHex4(h) && At(doc, i, i + 4, h) && DecodeHex4(doc, i, end) == CodePoint(HexNumber(h), i + 4)
  {
    h := doc[i..i + 4];
    AtHere(doc, i, i + 4);
    AllFourAreDigits(doc, i, 0, 0);
    DecodeHex4At(doc, i, i + 4, end, h);
  }

  lemma {:induction false} AllFourAreDigits(doc: string, i: nat, index: nat, unicode: nat)
    requires index <= 4 && i + 4 - index <= |doc| && DecodeDigits(doc, i, index, unicode).CodePoint?
    ensures forall k :: i <= k < i + 4 - index ==> IsHexDigit(doc[k])
    decreases 4 - index
  {
    if index < 4 {
      AllFourAreDigits(doc, i + 1, index + 1, unicode * 16 + HexDigitValue(doc[i]));
    }
  }

  /** A \\u escape that is decoded is an item. */
  lemma UnicodeItem(doc: string, i: nat, end: nat) returns (item: Item)
    requires i + 2 <= end <= |doc| && doc[i] == '\\' && doc[i + 1] == 'u' && DecodeCodePoint(doc, i + 2, end).CodePoint?
    ensures var r := DecodeCodePoint(doc, i + 2, end);
            LooseItem(item) && At(doc, i, r.next, ItemText(item)) && ItemBytes(item) == CodePointToUtf8(r.cp)
  {
    hide HexNumber, CodePointToUtf8, Combine, DecodeHex4;
    var h := Hex4Here(doc, i + 2, end);
    assert At(doc, i, i + 2, "\\u");
    AtJoin(doc, i, i + 2, i + 6, "\\u", h);
    if IsHighSurrogate(HexNumber(h)) {
      var low := Hex4Here(doc, i + 8, end);
      assert At(doc, i + 6, i + 8, "\\u");
      AtJoin(doc, i + 6, i + 8, i + 12, "\\u", low);
      AtJoin(doc, i, i + 6, i + 12, "\\u" + h, "\\u" + low);
      item := Pair(h, low);
    } else {
      item := Unicode(h);
    }
  }

  /** The item decodeString reads at i. */
  lemma NextItem(doc: string, token: Token, i: nat, end: nat, decoded: string) returns (item: Item, next: nat)
    requires i < end <= |doc| && doc[i] != '"' && DecodeFrom(doc, token, i, end, decoded).Decoded?
    ensures i < next <= end && LooseItem(item) && At(doc, i, next, ItemText(item))
  {
    hide CodePointToUtf8, DecodeCodePoint, HexNumber;
    if doc[i] != '\\' {
      item, next := Unescaped(doc[i]), i + 1;
    } else if doc[i + 1] == 'u' {
      item := UnicodeItem(doc, i, end);
      next := DecodeCodePoint(doc, i + 2, end).next;
    } else {
      item, next := Escape(doc[i + 1]), i + 2;
    }
  }

  lemma {:induction false} StringItems(doc: string, token: Token, i: nat, end: nat, decoded: string) returns (items: seq<Item>)
    requires i <= end < |doc| && ScanString(doc, i) == Scan(true, end + 1) && doc[end] == '"'
    requires DecodeFrom(doc, token, i, end, decoded).Decoded?
    ensures LooseItems(items) && At(doc, i, end, ItemsText(items))
    decreases end - i
  {
    if i == end {
      items := [];
    } else {
      hide ItemText, ItemBytes, LooseItem, CodePointToUtf8, DecodeCodePoint;
      assert doc[i] != '"';
      var item, next := NextItem(doc, token, i, end, decoded);
      ReadItem(doc, token, i, next, end, item, decoded);
      var rest := StringItems(doc, token, next, end, decoded + ItemBytes(item));
      items := [item] + rest;
      assert items[1..] == rest;
      AtJoin(doc, i, next, end, ItemText(item), ItemsText(rest));
    }
  }

  /** A string token that decodeString accepts has the text of a string, and decodes to what that denotes. */
  lemma StringIsLoose(doc: string, i: nat) returns (items: seq<Item>)
    requires i <= |doc| && ReadToken(doc, i).kind == StringToken && DecodeString(doc, ReadToken(doc, i)).Decoded?
    ensures var t := ReadToken(doc, i);
            && LooseItems(items) && At(doc, t.start, t.end, StringText(items))
            && DecodeString(doc, t) == Decoded(ItemsBytes(items), false)
  {
    hide ItemsText, ItemsBytes, LooseItems, DecodeFrom;
    var t := ReadToken(doc, i);
    items := StringItems(doc, t, t.start + 1, t.end - 1, "");
    assert At(doc, t.start, t.start + 1, "\"") && At(doc, t.end - 1, t.end, "\"");
    ReadItems(doc, t, t.start + 1, t.end - 1, items, "");
    assert "" + ItemsBytes(items) == ItemsBytes(items);
    AtJoin(doc, t.start + 1, t.end - 1, t.end, ItemsText(items), "\"");
    AtJoin(doc, t.start, t.start + 1, t.end, "\"", ItemsText(items) + "\"");
  }

  // ---------- values ----------

  lemma {:induction false} SkipIsRead(doc: string, i: nat) returns (k: nat)
    requires i <= |doc|
    ensures i <= k <= |doc| && SkipComments(doc, i) == ReadToken(doc, k)
    decreases |doc| - i
  {
    k := i;
    if ReadToken(doc, i).kind == CommentToken {
      k := SkipIsRead(doc, ReadToken(doc, i).end);
    }
  }

  /** The token a value starts with, read at k, and what stands in front of it. */
  lemma FirstGap(settings: Settings, doc: string, pos: nat, open: seq<bool>) returns (k: nat, ws: string)
    requires pos <= |doc| && Orderly(doc, pos, open)
    requires FirstToken(settings, doc, pos).kind != CommentToken && FirstToken(settings, doc, pos).kind != EndOfStream
    ensures var t := FirstToken(settings, doc, pos);
            && pos <= k <= |doc| && t == ReadToken(doc, k) && At(doc, pos, t.start, ws) && Filler(settings.allowComments, ws)
            && (EndsValue(t.kind) ==> Settled(doc, t.end, After(open, t.kind))) && Orderly(doc, t.end, After(open, t.kind))
  {
    hide At, ReadToken, SkipComments, Settled, Orderly, EndsValue, After;
    ws := Gap(doc, pos, open);
    if settings.allowComments {
      k := SkipIsRead(doc, pos);
    } else {
      k := pos;
    }
  }

  lemma Pushed(open: seq<bool>, brace: bool)
    ensures var inner := After(open, if brace then ObjectBegin else ArrayBegin);
            inner != [] && inner[|inner| - 1] == brace && inner[..|inner| - 1] == open
  {
  }

  /** What readValue() reads without an error is white space, with comments if they are allowed, and the text of a
      tree; the node holds what the tree denotes, and reading goes on behind the text. */
  lemma {:induction false} ReadIsLoose(settings: Settings, doc: string, pos: nat, before: Value, open: seq<bool>)
      returns (start: nat, ws: string, t: Json)
    requires pos <= |doc| && Orderly(doc, pos, open) && ReadValue(settings, doc, pos, before).error.None?
    ensures var r := ReadValue(settings, doc, pos, before);
            && At(doc, pos, start, ws) && Filler(settings.allowComments, ws) && At(doc, start, r.pos, JsonText(t))
            && Loose(settings, t) && r.value == Denote(settings, t) && Ends(doc, r.pos, t)
            && Settled(doc, r.pos, open) && Orderly(doc, r.pos, open)
    decreases |doc| - pos, 0
  {
    hide At, ReadToken, SkipComments, FirstToken, Orderly, Settled, DecodeString, DecodeNumber, NumberText, StringText, ItemsBytes,
         DenoteNumber, LooseNumber, LooseItems, Filler;
    var token := FirstToken(settings, doc, pos);
    var k;
    k, ws := FirstGap(settings, doc, pos, open);
    start := token.start;
    match token.kind
    case ObjectBegin =>
      StructuralText(doc, k, '{');
      Pushed(open, true);
      var members, pad := MembersAreLoose(settings, doc, token.end, map[], true, After(open, ObjectBegin));
      t := JObject(members, pad);
      AtJoin(doc, start, token.end, ReadValue(settings, doc, pos, before).pos, "{", MembersText(members, pad));
    case ArrayBegin =>
      StructuralText(doc, k, '[');
      Pushed(open, false);
      var elems, pad := ArrayIsLoose(settings, doc, token.end, After(open, ArrayBegin));
      t := JArray(elems, pad);
      AtJoin(doc, start, token.end, ReadValue(settings, doc, pos, before).pos, "[", ElemsText(elems, pad));
    case NumberToken =>
      NumberTokenText(doc, k);
      var n := NumberIsLoose(settings, TokenText(doc, token));
      t := JNumber(n);
    case StringToken =>
      var items := StringIsLoose(doc, k);
      t := JString(items);
    case TrueToken =>
      WordText(doc, k);
      t := JBool(true);
    case FalseToken =>
      WordText(doc, k);
      t := JBool(false);
    case NullToken =>
      WordText(doc, k);
      t := JNull;
  }

  /** Behind the closing bracket: the bracket is no longer open. */
  ghost predicate Closed(doc: string, i: nat, open: seq<bool>)
    requires i <= |doc|
  {
    open != [] && Settled(doc, i, open[..|open| - 1]) && Orderly(doc, i, open[..|open| - 1])
  }

  lemma {:induction false} ArrayIsLoose(settings: Settings, doc: string, pos: nat, open: seq<bool>)
      returns (elems: seq<Elem>, pad: string)
    requires pos <= |doc| && Orderly(doc, pos, open) && ReadArray(settings, doc, pos).error.None?
    requires open != [] && !open[|open| - 1]
    ensures var r := ReadArray(settings, doc, pos);
            && At(doc, pos, r.pos, ElemsText(elems, pad)) && (if elems == [] then AllSpaces(pad) else Filler(true, pad))
            && LooseElems(settings, elems) && r.value == Arr(AddElems(settings, elems, map[], 0)) && Closed(doc, r.pos, open)
    decreases |doc| - pos, 2
  {
    hide At, ReadElements, Orderly, Settled, JsonText, Denote, Loose, Filler;
    var start := SkipSpaces(doc, pos);
    if Peek(doc, start) == ']' {
      pad := Gap(doc, pos, open);
      elems := [];
      assert ReadToken(doc, pos) == Token(ArrayEnd, start, start + 1);
      StructuralText(doc, pos, ']');
      AtJoin(doc, pos, start, start + 1, pad, "]");
    } else {
      ElementsAfterSpaces(settings, doc, pos);
      elems, pad := ElementsAreLoose(settings, doc, pos, map[], 0, open);
    }
  }

  /** One element, up to the bracket or the comma behind it. */
  lemma {:induction false} ElementIsLoose(settings: Settings, doc: string, pos: nat, items: map<nat, Value>, index: nat,
                                          open: seq<bool>)
      returns (e: Elem, start: nat, end: nat, k: nat)
    requires pos <= |doc| && Orderly(doc, pos, open) && ReadElements(settings, doc, pos, items, index).error.None?
    requires open != []
    ensures k <= |doc| && At(doc, pos, start, e.before) && At(doc, start, end, JsonText(e.value))
    ensures Filler(settings.allowComments, e.before) && Filler(true, e.after) && Loose(settings, e.value)
    ensures var next, items' := ReadToken(doc, k), items[index := Denote(settings, e.value)];
            && At(doc, end, next.start, e.after) && next.kind in {ArrayEnd, ArraySeparator}
            && (if next.kind == ArrayEnd then Closed(doc, next.end, open) else Orderly(doc, next.end, open))
            && pos < next.end
            && ReadElements(settings, doc, pos, items, index)
               == if next.kind == ArrayEnd then Outcome(next.end, Arr(items'), None)
                  else ReadElements(settings, doc, next.end, items', index + 1)
    decreases |doc| - pos, 1, 0
  {
    var child := ReadValue(settings, doc, pos, ElementAt(items, index));
    var next := SkipComments(doc, child.pos);
    ElementNext(settings, doc, pos, items, index);
    hide At, ReadToken, SkipComments, FirstToken, Orderly, Settled, ReadValue, ReadElements, JsonText, Denote, Loose, Filler,
         AllSpaces, After, EndsValue, Closed;
    var before, t;
    start, before, t := ReadIsLoose(settings, doc, pos, ElementAt(items, index), open);
    end := child.pos;
    var after := Gap(doc, end, open);
    k := SkipIsRead(doc, end);
    Behind(doc, next, open);
    e := Elem(before, t, after);
  }

  /** Without an error a bracket or a comma follows an element. */
  lemma ElementNext(settings: Settings, doc: string, pos: nat, items: map<nat, Value>, index: nat)
    requires pos <= |doc| && ReadElements(settings, doc, pos, items, index).error.None?
    ensures var child := ReadValue(settings, doc, pos, ElementAt(items, index));
            var next, items' := SkipComments(doc, child.pos), items[index := child.value];
            && child.error.None? && next.kind in {ArrayEnd, ArraySeparator} && pos < next.end
            && ReadElements(settings, doc, pos, items, index)
               == if next.kind == ArrayEnd then Outcome(next.end, Arr(items'), None)
                  else ReadElements(settings, doc, next.end, items', index + 1)
  {
    hide SkipComments, ReadValue;
  }

  lemma Behind(doc: string, t: Token, open: seq<bool>)
    requires t.end <= |doc| && open != []
    ensures t.kind == ArrayEnd && Settled(doc, t.end, After(open, t.kind)) && Orderly(doc, t.end, After(open, t.kind)) ==>
              Closed(doc, t.end, open)
    ensures EndsValue(ArrayEnd)
    ensures t.kind == ArraySeparator ==> After(open, t.kind) == open
  {
    hide Settled, Orderly;
  }

  /** The rest of an array from an element on. */
  lemma {:induction false} ElementsAreLoose(settings: Settings, doc: string, pos: nat, items: map<nat, Value>, index: nat,
                                            open: seq<bool>)
      returns (elems: seq<Elem>, pad: string)
    requires pos <= |doc| && Orderly(doc, pos, open) && ReadElements(settings, doc, pos, items, index).error.None?
    requires open != []
    ensures var r := ReadElements(settings, doc, pos, items, index);
            && elems != [] && At(doc, pos, r.pos, ElemsText(elems, pad)) && Filler(true, pad) && LooseElems(settings, elems)
            && r.value == Arr(AddElems(settings, elems, items, index)) && Closed(doc, r.pos, open)
    decreases |doc| - pos, 1, 1
  {
    hide At, ReadToken, Orderly, Closed, JsonText, Denote, Loose, ReadElements, LooseElems, AddElems, ElemsText, MoreElemsText, Filler;
    var r := ReadElements(settings, doc, pos, items, index);
    var e, start, end, k := ElementIsLoose(settings, doc, pos, items, index, open);
    var next, items' := ReadToken(doc, k), items[index := Denote(settings, e.value)];
    pad := "";
    var rest: seq<Elem> := [];
    NoMoreElements(settings, items', index + 1);
    if next.kind == ArrayEnd {
      StructuralText(doc, k, ']');
    } else {
      StructuralText(doc, k, ',');
      rest, pad := ElementsAreLoose(settings, doc, next.end, items', index + 1, open);
      AtJoin(doc, next.start, next.end, r.pos, ",", ElemsText(rest, pad));
    }
    elems := [e] + rest;
    JoinElement(settings, doc, pos, start, end, next.start, r.pos, e, rest, pad, items, index);
  }

  lemma NoMoreElements(settings: Settings, items: map<nat, Value>, index: nat)
    ensures AddElems(settings, [], items, index) == items && LooseElems(settings, []) && Filler(true, "")
    ensures MoreElemsText([], "") == "]"
    ensures forall rest: seq<Elem>, pad :: rest != [] ==> MoreElemsText(rest, pad) == "," + ElemsText(rest, pad)
  {
  }

  /** An element whose parts stand one behind the other, and what follows it. */
  lemma JoinElement(settings: Settings, doc: string, pos: nat, i1: nat, i2: nat, i3: nat, end: nat,
                    e: Elem, rest: seq<Elem>, pad: string, items: map<nat, Value>, index: nat)
    requires At(doc, pos, i1, e.before) && At(doc, i1, i2, JsonText(e.value)) && At(doc, i2, i3, e.after)
    requires At(doc, i3, end, MoreElemsText(rest, pad))
    ensures At(doc, pos, end, ElemsText([e] + rest, pad))
    ensures Filler(settings.allowComments, e.before) && Filler(true, e.after) && Loose(settings, e.value) && LooseElems(settings, rest) ==>
              LooseElems(settings, [e] + rest)
    ensures AddElems(settings, [e] + rest, items, index)
         == AddElems(settings, rest, items[index := Denote(settings, e.value)], index + 1)
  {
    hide At, JsonText, MoreElemsText, Loose, Denote;
    assert ([e] + rest)[1..] == rest;
    var more := MoreElemsText(rest, pad);
    AtJoin(doc, i2, i3, end, e.after, more);
    AtJoin(doc, i1, i2, end, JsonText(e.value), e.after + more);
    AtJoin(doc, pos, i1, end, e.before, JsonText(e.value) + (e.after + more));
  }

  /** A member whose parts stand one behind the other, and what follows it. */
  lemma JoinMember(doc: string, pos: nat, i1: nat, i2: nat, i3: nat, i4: nat, i5: nat, i6: nat, i7: nat, end: nat,
                   m: Member, rest: seq<Member>, pad: string)
    requires At(doc, pos, i1, m.before) && At(doc, i1, i2, StringText(m.name)) && At(doc, i2, i3, m.afterName)
    requires At(doc, i3, i4, ":") && At(doc, i4, i5, m.beforeValue) && At(doc, i5, i6, JsonText(m.value))
    requires At(doc, i6, i7, m.after) && At(doc, i7, end, MoreMembersText(rest, pad))
    ensures At(doc, pos, end, MembersText([m] + rest, pad))
  {
    hide At, JsonText, MoreMembersText, StringText;
    assert ([m] + rest)[1..] == rest;
    var more := MoreMembersText(rest, pad);
    var s5 := JsonText(m.value) + (m.after + more);
    var s3 := m.afterName + (":" + (m.beforeValue + s5));
    AtJoin(doc, i6, i7, end, m.after, more);
    AtJoin(doc, i5, i6, end, JsonText(m.value), m.after + more);
    AtJoin(doc, i4, i5, end, m.beforeValue, s5);
    AtJoin(doc, i3, i4, end, ":", m.beforeValue + s5);
    AtJoin(doc, i2, i3, end, m.afterName, ":" + (m.beforeValue + s5));
    AtJoin(doc, i1, i2, end, StringText(m.name), s3);
    AtJoin(doc, pos, i1, end, m.before, StringText(m.name) + s3);
  }

  /** Without an error, a member starts with a name and a colon. */
  lemma NameFirst(settings: Settings, doc: string, pos: nat, known: map<CString, Value>, closable: bool)
    requires pos <= |doc| && ReadMembers(settings, doc, pos, known, closable).error.None?
    requires !(SkipComments(doc, pos).kind == ObjectEnd && closable)
    ensures var token := SkipComments(doc, pos);
            && token.kind == StringToken && DecodeString(doc, token).Decoded?
            && var colon := ReadToken(doc, token.end);
               colon.kind == MemberSeparator
               && ReadMemberValue(settings, doc, colon.end, known, DecodeString(doc, token).text)
               == ReadMembers(settings, doc, pos, known, closable)
  {
    hide SkipComments, ReadToken, DecodeString, ReadMemberValue;
  }

  /** Then a value, and a brace or a comma. */
  lemma ValueNext(settings: Settings, doc: string, pos: nat, known: map<CString, Value>, name: string)
    requires pos <= |doc| && ReadMemberValue(settings, doc, pos, known, name).error.None?
    ensures var child := ReadValue(settings, doc, pos, MemberAt(known, CStr(name)));
            var next := ReadToken(doc, child.pos);
            child.error.None? && next.kind in {ObjectEnd, ArraySeparator, CommentToken}
  {
    hide SkipComments, ReadToken, ReadValue, ReadMembers;
  }

  /** The rest of an object from a name, or the brace, on. */
  lemma {:induction false} MembersAreLoose(settings: Settings, doc: string, pos: nat, known: map<CString, Value>, closable: bool,
                                           open: seq<bool>)
      returns (members: seq<Member>, pad: string)
    requires pos <= |doc| && Orderly(doc, pos, open) && ReadMembers(settings, doc, pos, known, closable).error.None?
    requires open != [] && open[|open| - 1]
    ensures var r := ReadMembers(settings, doc, pos, known, closable);
            && At(doc, pos, r.pos, MembersText(members, pad)) && LooseMembers(settings, members, pad)
            && (members == [] ==> closable)
            && r.value == Obj(AddMembers(settings, members, known)) && Closed(doc, r.pos, open)
    decreases |doc| - pos, 0, 2
  {
    hide At, ReadToken, SkipComments, FirstToken, Orderly, Settled, DecodeString, StringText, LooseItems, Filler;
    var before := Gap(doc, pos, open);
    var k := SkipIsRead(doc, pos);
    var token := ReadToken(doc, k);
    if token.kind == ObjectEnd && closable {
      members, pad := [], before;
      StructuralText(doc, k, '}');
      AtJoin(doc, pos, token.start, token.end, pad, "}");
    } else {
      NameFirst(settings, doc, pos, known, closable);
      members, pad := MoreAreLoose(settings, doc, pos, k, known, closable, before, open);
    }
  }

  /** One member, from its name, read at k, up to the brace or the comma behind it, read at n. */
  lemma {:induction false} OneIsLoose(settings: Settings, doc: string, pos: nat, k: nat, known: map<CString, Value>, closable: bool,
                                      before: string, open: seq<bool>)
      returns (m: Member, colon: Token, start: nat, end: nat, n: nat)
    requires pos <= k <= |doc| && ReadMembers(settings, doc, pos, known, closable).error.None?
    requires ReadToken(doc, k) == SkipComments(doc, pos) && !(ReadToken(doc, k).kind == ObjectEnd && closable)
    requires ReadToken(doc, k).kind == StringToken && Orderly(doc, ReadToken(doc, k).end, open)
    requires open != [] && open[|open| - 1]
    ensures end <= |doc| && n <= |doc| && m.before == before
    ensures AllSpaces(m.afterName) && Filler(settings.allowComments, m.beforeValue) && Filler(true, m.after)
    ensures LooseItems(m.name) && Loose(settings, m.value)
    ensures var token, next := ReadToken(doc, k), ReadToken(doc, n);
            && At(doc, token.start, token.end, StringText(m.name)) && At(doc, token.end, colon.start, m.afterName)
            && At(doc, colon.start, colon.end, ":") && At(doc, colon.end, start, m.beforeValue)
            && At(doc, start, end, JsonText(m.value)) && At(doc, end, next.start, m.after)
            && next.kind in {ObjectEnd, ArraySeparator} && pos < next.end
            && (if next.kind == ObjectEnd then Closed(doc, next.end, open) else Orderly(doc, next.end, open))
            && var known' := known[CStr(ItemsBytes(m.name)) := Denote(settings, m.value)];
               ReadMembers(settings, doc, pos, known, closable)
               == if next.kind == ObjectEnd then Outcome(next.end, Obj(known'), None)
                  else ReadMembers(settings, doc, next.end, known', ItemsBytes(m.name) == "")
    decreases |doc| - pos, 0, 0
  {
    hide At, ReadToken, SkipComments, FirstToken, Orderly, DecodeString, StringText, LooseItems, ReadMembers, ReadMemberValue,
         ReadValue, Loose, Denote, JsonText, ItemsBytes, Filler, AllSpaces;
    var token := ReadToken(doc, k);
    NameFirst(settings, doc, pos, known, closable);
    var name := StringIsLoose(doc, k);
    var bytes := ItemsBytes(name);
    var afterName := Gap(doc, token.end, open);
    colon := ReadToken(doc, token.end);
    ColonText(doc, token.end);
    ValueNext(settings, doc, colon.end, known, bytes);
    var was := MemberAt(known, CStr(bytes));
    var child := ReadValue(settings, doc, colon.end, was);
    var beforeValue, t;
    start, beforeValue, t := ReadIsLoose(settings, doc, colon.end, was, open);
    end := child.pos;
    SettledNext(doc, end, open);
    var after := Gap(doc, end, open);
    n := SkipIsRead(doc, end);
    MembersStep(settings, doc, pos, known, closable, token, bytes, colon, child, SkipComments(doc, end));
    m := Member(before, name, afterName, beforeValue, t, after);
  }

  lemma SettledNext(doc: string, i: nat, open: seq<bool>)
    requires i <= |doc| && Settled(doc, i, open) && open != [] && open[|open| - 1]
    requires ReadToken(doc, i).kind in {ObjectEnd, ArraySeparator, CommentToken}
    ensures SkipComments(doc, i).kind in {ObjectEnd, ArraySeparator}
  {
    hide ReadToken;
  }

  lemma {:induction false} MoreAreLoose(settings: Settings, doc: string, pos: nat, k: nat, known: map<CString, Value>, closable: bool,
                                        before: string, open: seq<bool>)
      returns (members: seq<Member>, pad: string)
    requires pos <= k <= |doc| && ReadMembers(settings, doc, pos, known, closable).error.None?
    requires ReadToken(doc, k) == SkipComments(doc, pos) && !(ReadToken(doc, k).kind == ObjectEnd && closable)
    requires ReadToken(doc, k).kind == StringToken && Orderly(doc, ReadToken(doc, k).end, open)
    requires open != [] && open[|open| - 1]
    requires At(doc, pos, ReadToken(doc, k).start, before) && Filler(true, before)
    ensures var r := ReadMembers(settings, doc, pos, known, closable);
            && members != [] && At(doc, pos, r.pos, MembersText(members, pad)) && LooseMembers(settings, members, pad)
            && r.value == Obj(AddMembers(settings, members, known)) && Closed(doc, r.pos, open)
    decreases |doc| - pos, 0, 1
  {
    hide At, ReadToken, SkipComments, Orderly, Closed, StringText, LooseItems, ReadMembers, Loose, Denote, JsonText, ItemsBytes,
         LoosePad, LooseMembers, AddMembers, MembersText, MoreMembersText, CStr, AllSpaces, Filler;
    var r := ReadMembers(settings, doc, pos, known, closable);
    var m, colon, start, end, n := OneIsLoose(settings, doc, pos, k, known, closable, before, open);
    var token, next := ReadToken(doc, k), ReadToken(doc, n);
    var known' := known[CStr(ItemsBytes(m.name)) := Denote(settings, m.value)];
    var rest: seq<Member> := [];
    pad := "";
    if next.kind == ObjectEnd {
      StructuralText(doc, n, '}');
      NoPad(m);
    } else {
      StructuralText(doc, n, ',');
      var inner;
      rest, inner := MembersAreLoose(settings, doc, next.end, known', ItemsBytes(m.name) == "", open);
      AtJoin(doc, next.start, next.end, r.pos, ",", MembersText(rest, inner));
      pad := PadIsLoose(settings, m, rest, inner);
    }
    members := [m] + rest;
    MembersTogether(settings, m, rest, pad, known);
    JoinMember(doc, pos, token.start, token.end, colon.start, colon.end, start, end, next.start, r.pos, m, rest, pad);
  }

  lemma NoPad(m: Member)
    ensures LoosePad(m, "") && MoreMembersText([], "") == "}"
  {
  }

  /** A comma in front of the brace counts as part of the pad. */
  lemma PadIsLoose(settings: Settings, m: Member, rest: seq<Member>, inner: string) returns (pad: string)
    requires rest == [] ==> ItemsBytes(m.name) == ""
    requires LooseMembers(settings, rest, inner)
    ensures if rest == [] then LoosePad(m, pad) else pad == inner
    ensures MoreMembersText(rest, pad) == "," + MembersText(rest, inner)
  {
    pad := inner;
    if rest == [] {
      pad := "," + inner;
      assert Filler(true, "") && Filler(true, inner) && pad == "" + ("," + inner);
      assert CommaPad(pad);
      assert "," + inner + "}" == "," + (inner + "}");
    }
  }

  lemma MembersTogether(settings: Settings, m: Member, rest: seq<Member>, pad: string, known: map<CString, Value>)
    requires Filler(true, m.before) && AllSpaces(m.afterName)
    requires Filler(settings.allowComments, m.beforeValue) && Filler(true, m.after)
    requires LooseItems(m.name) && Loose(settings, m.value)
    requires if rest == [] then LoosePad(m, pad) else LooseMembers(settings, rest, pad)
    ensures LooseMembers(settings, [m] + rest, pad)
    ensures AddMembers(settings, [m] + rest, known)
         == AddMembers(settings, rest, known[CStr(ItemsBytes(m.name)) := Denote(settings, m.value)])
    ensures rest == [] ==>
              AddMembers(settings, [m] + rest, known) == known[CStr(ItemsBytes(m.name)) := Denote(settings, m.value)]
  {
    assert ([m] + rest)[1..] == rest;
  }

  // ---------- documents ----------

  /** White space, with comments if they are allowed, the text of t, and something that does not continue it. */
  ghost predicate Splits(settings: Settings, doc: string, t: Json, ws: string, tail: string) {
    && Filler(settings.allowComments, ws) && doc == ws + JsonText(t) + tail
    && (t.JNumber? && tail != "" ==> !IsNumberChar(tail[0]))
  }

  ghost predicate StartsWith(settings: Settings, doc: string, t: Json) {
    exists ws, tail :: Splits(settings, doc, t, ws, tail)
  }

  lemma StartIsRead(settings: Settings, doc: string, t: Json, before: Value)
    requires Loose(settings, t) && StartsWith(settings, doc, t)
    ensures var r := ReadValue(settings, doc, 0, before); r.error.None? && r.value == Denote(settings, t)
  {
    hide ReadValue, JsonText, Loose, Denote, Filler;
    var ws, tail :| Splits(settings, doc, t, ws, tail);
    ReadsStart(settings, ws, t, tail, before);
  }

  lemma ReadIsStart(settings: Settings, doc: string, before: Value) returns (t: Json)
    requires Orderly(doc, 0, []) && ReadValue(settings, doc, 0, before).error.None?
    ensures Loose(settings, t) && StartsWith(settings, doc, t)
  {
    hide ReadValue, JsonText, Loose, Denote, Orderly, Filler;
    var end := ReadValue(settings, doc, 0, before).pos;
    var start, ws;
    start, ws, t := ReadIsLoose(settings, doc, 0, before, []);
    var tail := doc[end..];
    AtSlice(doc, 0, start, ws);
    AtSlice(doc, start, end, JsonText(t));
    assert doc == doc[0..start] + doc[start..end] + tail;
    assert tail != "" ==> tail[0] == Peek(doc, end);
    assert Splits(settings, doc, t, ws, tail);
  }

  /** The reader accepts an orderly document exactly if it starts with the text of a tree of its grammar, which in
      strict mode denotes an array, an object or null; and the root is what any such tree denotes. */
  lemma AcceptsExactly(settings: Settings, doc: string, before: Value)
    requires Orderly(doc, 0, [])
    ensures Parse(settings, doc, before).ok <==>
            exists t :: Loose(settings, t) && StartsWith(settings, doc, t) && (settings.strictRoot ==> IsRoot(Denote(settings, t)))
    ensures forall t :: Loose(settings, t) && StartsWith(settings, doc, t) ==> Parse(settings, doc, before).root == Denote(settings, t)
  {
    hide ReadValue, Loose, Denote, Orderly, StartsWith;
    if ReadValue(settings, doc, 0, before).error.None? {
      var t := ReadIsStart(settings, doc, before);
      StartIsRead(settings, doc, t, before);
    }
    forall t | Loose(settings, t) && StartsWith(settings, doc, t)
      ensures var r := ReadValue(settings, doc, 0, before); r.error.None? && r.value == Denote(settings, t)
    {
      StartIsRead(settings, doc, t, before);
    }
  }
}
