// What the writers print is read back.
module RoundTrip {
  import opened Text
  import opened Values
  import opened Scanner
  import opened Parser
  import opened Grammar
  import opened Completeness
  import opened Tokens
  import opened Whitespace
  import opened Printing
  import opened Styling
  import opened Readers
  import opened FastWriters
  import opened StyledWriters

  /** The document FastWriter::write returns. */
  ghost function FastText(style: Style, v: Value): string {
    JsonText(TreeOf(style, v)) + "\n"
  }

  /** The document StyledWriter::write returns. */
  ghost function StyledText(style: Style, v: Value): string {
    Styled(style, "", "", v) + "\n"
  }

  lemma FastTextIsJson(settings: Settings, style: Style, v: Value)
    requires Readable(settings, style, v)
    ensures IsJsonText(settings, FastText(style, v), TreeOf(style, v))
    ensures Denote(settings, TreeOf(style, v)) == Retained(Reread(settings, style), v)
  {
    hide TreeOf, JsonText, Denote, ValidJson, Retained, Readable;
    PrintedDenotes(settings, style, v);
    assert FastText(style, v) == "" + JsonText(TreeOf(style, v)) + "\n";
    assert AllSpaces("") && AllSpaces("\n");
  }

  /** Parsing what the compact writer wrote succeeds and yields what the writer retained; that is
      the normal form of the value if and only if its arrays are no longer than an int counts. */
  lemma FastRoundTrip(settings: Settings, style: Style, v: Value, before: Value)
    requires Readable(settings, style, v)
    requires settings.strictRoot ==> IsRoot(v)
    ensures Parse(settings, FastText(style, v), before) == Parsed(true, Retained(Reread(settings, style), v), [])
    ensures Parse(settings, FastText(style, v), before).root == Norm(Reread(settings, style), v) <==> ArraysWithin(v, MAX_INT)
  {
    FastTextIsJson(settings, style, v);
    ParseIsComplete(settings, FastText(style, v), TreeOf(style, v), before);
    RetainsWholeValue(Reread(settings, style), v);
  }

  /** Writing the parsed value gives the text it was parsed from. */
  lemma FastTextIsStable(settings: Settings, style: Style, v: Value, before: Value)
    requires RealFree(v)
    requires settings.strictRoot ==> IsRoot(v)
    ensures FastText(style, Parse(settings, FastText(style, v), before).root) == FastText(style, v)
  {
    RealFreeIsReadable(settings, style, v);
    FastRoundTrip(settings, style, v, before);
    RetainedPrintsTheSame(style, Reread(settings, style), v);
  }

  /** An array of 2^31 elements is printed as an empty one. */
  lemma HugeArrayPrintsEmpty(style: Style)
    ensures Count(map[MAX_INT as nat := Null]) == 0 && Extent(map[MAX_INT as nat := Null]) == MAX_INT + 1
    ensures JsonText(TreeOf(style, Arr(map[MAX_INT as nat := Null]))) == "[]"
  {
    var items: map<nat, Value> := map[MAX_INT as nat := Null];
    assert MAX_INT in items && Extent(items) == MAX_INT + 1;
  }

  lemma {:induction false} NarrowerArrays(v: Value, low: nat, high: nat)
    requires ArraysWithin(v, low) && low <= high
    ensures ArraysWithin(v, high)
  {
    match v
    case Arr(items) =>
      forall k | k in items ensures ArraysWithin(items[k], high) {
        NarrowerArrays(items[k], low, high);
      }
    case Obj(members) =>
      forall k | k in members ensures ArraysWithin(members[k], high) {
        NarrowerArrays(members[k], low, high);
      }
    case _ =>
  }

  lemma StyledTextIsJson(settings: Settings, style: Style, v: Value) returns (t: Json)
    requires !style.yaml && Readable(settings, style, v) && ArraysWithin(v, MAX_SIZE)
    ensures IsJsonText(settings, StyledText(style, v), t)
    ensures Compact(t) == TreeOf(style, v)
    ensures Denote(settings, t) == Retained(Reread(settings, style), v)
  {
    hide TreeOf, JsonText, Denote, ValidJson, Retained, Readable, Styled, Compact, Spaced, ArraysWithin;
    var ws;
    ws, t := StyledIsTree(style, "", "", v);
    PrintedDenotes(settings, style, v);
    SpacesDoNotMatter(settings, t);
    assert "" + (ws + JsonText(t)) == ws + JsonText(t);
    assert StyledText(style, v) == ws + JsonText(t) + "\n";
    assert AllSpaces("\n");
  }

  /** The two printers mean the same: their texts have the same tokens, and parse to the same
      value. */
  lemma PrintersAgree(settings: Settings, style: Style, v: Value, before: Value)
    requires !style.yaml && Readable(settings, style, v) && ArraysWithin(v, MAX_SIZE)
    requires settings.strictRoot ==> IsRoot(v)
    ensures Tokenize(StyledText(style, v), 0) == Tokenize(FastText(style, v), 0)
    ensures Parse(settings, StyledText(style, v), before) == Parse(settings, FastText(style, v), before)
         == Parsed(true, Norm(Reread(settings, style), v), [])
  {
    NarrowerArrays(v, MAX_SIZE, MAX_INT);
    var t := StyledTextIsJson(settings, style, v);
    assert settings.strictRoot ==> Compact(t).JArray? || Compact(t).JObject? || Compact(t).JNull?;
    ParseIsComplete(settings, StyledText(style, v), t, before);
    FastRoundTrip(settings, style, v, before);
    TokenizesText(settings, StyledText(style, v), t);
    CompactKeepsTokens(t, []);
    FastTextIsJson(settings, style, v);
    TokenizesText(settings, FastText(style, v), TreeOf(style, v));
  }

  /** The classes together: what one writer object prints, a reader object parses without error,
      whichever of the two writers it is. */
  method PrintAndParse(fast: FastWriter, styled: StyledWriter, reader: Reader, v: Value, pretty: bool) returns (ok: bool)
    requires !fast.yamlCompatibilityEnabled && ArraysWithin(v, MAX_SIZE)
    requires Readable(reader.settings, Style(false, if pretty then styled.show else fast.show), v)
    requires reader.settings.strictRoot ==> IsRoot(v)
    modifies fast, styled, reader
    ensures ok && reader.errors == [] && reader.nodes == [[]]
    ensures reader.root == Norm(Reread(reader.settings, Style(false, if pretty then styled.show else fast.show)), v)
  {
    var text;
    ghost var style := Style(false, if pretty then styled.show else fast.show);
    ghost var before := reader.root;
    if pretty {
      text := styled.Write(v);
      PrintersAgree(reader.settings, style, v, before);
    } else {
      text := fast.Write(v);
      NarrowerArrays(v, MAX_SIZE, MAX_INT);
      FastRoundTrip(reader.settings, style, v, before);
    }
    ok := reader.Parse(text);
  }

  /** The same with the YAML flag of the compact writer, which puts a space behind each colon. */
  method PrintYamlAndParse(fast: FastWriter, reader: Reader, v: Value) returns (ok: bool)
    requires Readable(reader.settings, Style(true, fast.show), v) && ArraysWithin(v, MAX_INT)
    requires reader.settings.strictRoot ==> IsRoot(v)
    modifies fast, reader
    ensures ok && reader.errors == []
    ensures reader.root == Norm(Reread(reader.settings, Style(true, fast.show)), v)
  {
    ghost var before := reader.root;
    fast.EnableYamlCompatibility();
    FastRoundTrip(reader.settings, Style(true, fast.show), v, before);
    var text := fast.Write(v);
    ok := reader.Parse(text);
  }
}
