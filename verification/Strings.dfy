// String tokens: what Reader::decodeString makes of them, as a function of the document, and
// the strings of RFC 8259, section 7.
module Strings {
  import opened Text
  import opened Scanner
  import opened Unicode

  /** The messages of the reader, by what they complain of. */
  datatype Message =
    | ValueExpected
    | MissingMemberName
    | MissingColon
    | MissingCommaInObject
    | MissingCommaInArray
    | NotANumber(text: string)
    | EmptyEscape
    | BadEscape
    | FourDigitsExpected
    | HexDigitExpected
    | SurrogateTooShort
    | SurrogateExpected
    | RootNotAContainer

  datatype ErrorInfo = ErrorInfo(token: Token, message: Message, extra: Option<nat>)

  /** What decodeUnicodeEscapeSequence and decodeUnicodeCodePoint come to: a code point and the
      position behind it, or an error message and the position it is reported at. */
  datatype UnicodeResult = CodePoint(cp: nat, next: nat) | UnicodeError(message: Message, at: nat)

  function DecodeDigits(doc: string, i: nat, index: nat, unicode: nat): UnicodeResult
    requires index <= 4 && i + 4 - index <= |doc|
    decreases 4 - index
  {
    if index == 4 then CodePoint(unicode, i)
    else if !IsHexDigit(doc[i]) then UnicodeError(HexDigitExpected, i + 1)
    else DecodeDigits(doc, i + 1, index + 1, unicode * 16 + HexDigitValue(doc[i]))
  }

  lemma DecodeDigit(doc: string, i: nat, index: nat, unicode: nat)
    requires index <= 4 && i + 4 - index <= |doc|
    ensures DecodeDigits(doc, i, index, unicode)
         == if index == 4 then CodePoint(unicode, i)
            else if IsHexDigit(doc[i]) then DecodeDigits(doc, i + 1, index + 1, unicode * 16 + HexDigitValue(doc[i]))
            else UnicodeError(HexDigitExpected, i + 1)
  {
  }

  function DecodeHex4(doc: string, i: nat, end: nat): (r: UnicodeResult)
    requires i <= end <= |doc|
    ensures r.CodePoint? ==> r.next <= end && r.next == i + 4
  {
    if end - i < 4 then UnicodeError(FourDigitsExpected, i)
    else DigitsAdvance(doc, i, 0, 0); DecodeDigits(doc, i, 0, 0)
  }

  lemma {:induction false} DigitsAdvance(doc: string, i: nat, index: nat, unicode: nat)
    requires index <= 4 && i + 4 - index <= |doc|
    ensures var r := DecodeDigits(doc, i, index, unicode); r.CodePoint? ==> r.next == i + 4 - index
    decreases 4 - index
  {
    if index < 4 && IsHexDigit(doc[i]) {
      DigitsAdvance(doc, i + 1, index + 1, unicode * 16 + HexDigitValue(doc[i]));
    }
  }

  function DecodeCodePoint(doc: string, i: nat, end: nat): (r: UnicodeResult)
    requires i <= end <= |doc|
    ensures r.CodePoint? ==> i + 4 <= r.next <= end
  {
    var first := DecodeHex4(doc, i, end);
    if first.UnicodeError? || !IsHighSurrogate(first.cp) then first
    else if end - first.next < 6 then UnicodeError(SurrogateTooShort, first.next)
    else if doc[first.next] != '\\' then UnicodeError(SurrogateExpected, first.next + 1)
    else if doc[first.next + 1] != 'u' then UnicodeError(SurrogateExpected, first.next + 2)
    else
      var second := DecodeHex4(doc, first.next + 2, end);
      if second.UnicodeError? then second
      else CodePoint(Combine(first.cp, second.cp), second.next)
  }

  /** A decoded string, and whether decoding was cut short by a bare quote; or the error. */
  datatype Decoded = Decoded(text: string, cut: bool) | Rejected(error: ErrorInfo)

  /** The byte a simple escape stands for. */
  function SimpleEscape(c: char): Option<char> {
    match c
    case '"' => Some('"')
    case '/' => Some('/')
    case '\\' => Some('\\')
    case 'b' => Some('\U{08}')
    case 'f' => Some('\U{0C}')
    case 'n' => Some('\n')
    case 'r' => Some('\r')
    case 't' => Some('\t')
    case _ => None
  }

  /** The loop of decodeString from position i on, with what it has decoded so far. */
  function DecodeFrom(doc: string, token: Token, i: nat, end: nat, decoded: string): Decoded
    requires i <= end <= |doc|
    decreases end - i
  {
    if i == end then Decoded(decoded, false)
    else if doc[i] == '"' then Decoded(decoded, true)
    else if doc[i] != '\\' then DecodeFrom(doc, token, i + 1, end, decoded + [doc[i]])
    else if i + 1 == end then Rejected(ErrorInfo(token, EmptyEscape, Some(i + 1)))
    else if doc[i + 1] == 'u' then
      match DecodeCodePoint(doc, i + 2, end)
      case CodePoint(cp, next) => DecodeFrom(doc, token, next, end, decoded + CodePointToUtf8(cp))
      case UnicodeError(message, at) => Rejected(ErrorInfo(token, message, Some(at)))
    else
      match SimpleEscape(doc[i + 1])
      case Some(c) => DecodeFrom(doc, token, i + 2, end, decoded + [c])
      case None => Rejected(ErrorInfo(token, BadEscape, Some(i + 2)))
  }

  function DecodeString(doc: string, token: Token): Decoded
    requires token.start + 2 <= token.end <= |doc|
  {
    DecodeFrom(doc, token, token.start + 1, token.end - 1, "")
  }

  // ---------- scanner and decoder agree ----------

  lemma {:induction false} ScanSkipsDigits(doc: string, i: nat, index: nat, unicode: nat)
    requires index <= 4 && i + 4 - index <= |doc|
    requires DecodeDigits(doc, i, index, unicode).CodePoint?
    ensures ScanString(doc, i) == ScanString(doc, i + 4 - index)
    decreases 4 - index
  {
    if index < 4 {
      ScanSkipsDigits(doc, i + 1, index + 1, unicode * 16 + HexDigitValue(doc[i]));
    }
  }

  lemma ScanSkipsHex4(doc: string, i: nat, end: nat)
    requires i <= end <= |doc| && DecodeHex4(doc, i, end).CodePoint?
    ensures ScanString(doc, i) == ScanString(doc, i + 4)
  {
    ScanSkipsDigits(doc, i, 0, 0);
  }

  lemma ScanSkipsCodePoint(doc: string, i: nat, end: nat)
    requires i <= end <= |doc| && DecodeCodePoint(doc, i, end).CodePoint?
    ensures ScanString(doc, i) == ScanString(doc, DecodeCodePoint(doc, i, end).next)
  {
    ScanSkipsHex4(doc, i, end);
    if IsHighSurrogate(DecodeHex4(doc, i, end).cp) {
      assert ScanString(doc, i + 4) == ScanString(doc, i + 6);
      ScanSkipsHex4(doc, i + 6, end);
    }
  }

  /** On what the scanner accepts, the decoder meets the closing quote exactly at the end of
      the token: it is never cut short and never finds an escape without a character. */
  lemma {:induction false} ScannerAndDecoderAgree(doc: string, token: Token, i: nat, end: nat, decoded: string)
    requires i <= end < |doc| && ScanString(doc, i) == Scan(true, end + 1)
    ensures var r := DecodeFrom(doc, token, i, end, decoded);
            if r.Decoded? then !r.cut else r.error.message != EmptyEscape
    decreases end - i
  {
    if i < end {
      var c := doc[i];
      if c != '\\' && c != '"' {
        ScannerAndDecoderAgree(doc, token, i + 1, end, decoded + [c]);
      } else if c == '\\' && i + 1 != end {
        assert ScanString(doc, i) == ScanString(doc, i + 2);
        if doc[i + 1] == 'u' {
          var r := DecodeCodePoint(doc, i + 2, end);
          if r.CodePoint? {
            ScanSkipsCodePoint(doc, i + 2, end);
            ScannerAndDecoderAgree(doc, token, r.next, end, decoded + CodePointToUtf8(r.cp));
          } else {
            CodePointMessage(doc, i + 2, end);
          }
        } else if SimpleEscape(doc[i + 1]).Some? {
          ScannerAndDecoderAgree(doc, token, i + 2, end, decoded + [SimpleEscape(doc[i + 1]).value]);
        }
      }
    }
  }

  /** So on every string token the reader meets, decodeString reads the whole token. */
  lemma StringTokensDecodeFully(doc: string, i: nat)
    requires i <= |doc| && ReadToken(doc, i).kind == StringToken
    ensures var r := DecodeString(doc, ReadToken(doc, i));
            if r.Decoded? then !r.cut else r.error.message != EmptyEscape
  {
    var token := ReadToken(doc, i);
    ScannerAndDecoderAgree(doc, token, token.start + 1, token.end - 1, "");
  }

  lemma {:induction false} DigitsMessage(doc: string, i: nat, index: nat, unicode: nat)
    requires index <= 4 && i + 4 - index <= |doc|
    ensures var r := DecodeDigits(doc, i, index, unicode); r.UnicodeError? ==> r.message == HexDigitExpected
    decreases 4 - index
  {
    if index < 4 && IsHexDigit(doc[i]) {
      DigitsMessage(doc, i + 1, index + 1, unicode * 16 + HexDigitValue(doc[i]));
    }
  }

  lemma CodePointMessage(doc: string, i: nat, end: nat)
    requires i <= end <= |doc|
    ensures var r := DecodeCodePoint(doc, i, end); r.UnicodeError? ==> r.message != EmptyEscape
  {
    if end - i >= 4 {
      DigitsMessage(doc, i, 0, 0);
    }
    var first := DecodeHex4(doc, i, end);
    if first.CodePoint? && end - first.next >= 6 {
      DigitsMessage(doc, first.next + 2, 0, 0);
    }
  }

  // ---------- RFC 8259, section 7 ----------

  /** char of the string grammar, an unescaped byte of UTF-8 at a time; a pair of surrogate
      escapes is one item. */
  datatype Item =
    | Unescaped(c: char)
    | Escape(e: char)
    | Unicode(h: string)
    | Pair(high: string, low: string)

  /** What the reader takes for an item: control characters may stand unescaped, a low surrogate
      alone, and behind a high surrogate any unit. */
  ghost predicate LooseItem(item: Item) {
    match item
    case Unescaped(c) => c != '"' && c != '\\'
    case Escape(e) => SimpleEscape(e).Some?
    case Unicode(h) => IsHex4(h) && !IsHighSurrogate(HexNumber(h))
    case Pair(high, low) => IsHex4(high) && IsHex4(low) && IsHighSurrogate(HexNumber(high))
  }

  ghost predicate LooseItems(items: seq<Item>) {
    forall k :: 0 <= k < |items| ==> LooseItem(items[k])
  }

  /** In the grammar, and no unpaired surrogate. */
  ghost predicate ValidItem(item: Item) {
    LooseItem(item) &&
    match item
    case Unescaped(c) => c >= ' '
    case Unicode(h) => IsScalar(HexNumber(h))
    case Pair(_, low) => IsLowSurrogate(HexNumber(low))
    case _ => true
  }

  ghost predicate ValidItems(items: seq<Item>) {
    forall k :: 0 <= k < |items| ==> ValidItem(items[k])
  }

  lemma ValidItemsAreLoose(items: seq<Item>)
    requires ValidItems(items)
    ensures LooseItems(items)
  {
  }

  ghost function ItemText(item: Item): string {
    match item
    case Unescaped(c) => [c]
    case Escape(e) => ['\\', e]
    case Unicode(h) => "\\u" + h
    case Pair(high, low) => "\\u" + high + ("\\u" + low)
  }

  /** The UTF-8 bytes the item denotes, if it is one. */
  ghost function ItemBytes(item: Item): string {
    match item
    case Unescaped(c) => [c]
    case Escape(e) => if SimpleEscape(e).Some? then [SimpleEscape(e).value] else ""
    case Unicode(h) => if IsHex4(h) then CodePointToUtf8(HexNumber(h)) else ""
    case Pair(high, low) =>
      if IsHex4(high) && IsHex4(low) then CodePointToUtf8(Combine(HexNumber(high), HexNumber(low))) else ""
  }

  ghost function ItemsText(items: seq<Item>): string {
    if items == [] then "" else ItemText(items[0]) + ItemsText(items[1..])
  }

  ghost function ItemsBytes(items: seq<Item>): string {
    if items == [] then "" else ItemBytes(items[0]) + ItemsBytes(items[1..])
  }

  /** The string token with these items. */
  ghost function StringText(items: seq<Item>): string {
    "\"" + (ItemsText(items) + "\"")
  }

  /** The item is the escape of U+0000, the only way a text of the grammar denotes a NUL. */
  ghost predicate IsNulEscape(item: Item) {
    item.Unicode? && IsHex4(item.h) && HexNumber(item.h) == 0
  }

  lemma {:induction false} NulOnlyFromEscape(items: seq<Item>)
    requires ValidItems(items)
    ensures NUL in ItemsBytes(items) <==> exists k :: 0 <= k < |items| && IsNulEscape(items[k])
  {
    if items != [] {
      NulOnlyFromEscape(items[1..]);
      var item := items[0];
      assert NUL in ItemBytes(item) <==> IsNulEscape(item) by {
        match item
        case Unicode(h) => Utf8HasNoNul(HexNumber(h));
        case Pair(high, low) => Utf8HasNoNul(Combine(HexNumber(high), HexNumber(low)));
        case _ =>
      }
      if exists k :: 0 <= k < |items| && IsNulEscape(items[k]) {
        var k :| 0 <= k < |items| && IsNulEscape(items[k]);
        assert k > 0 ==> IsNulEscape(items[1..][k - 1]);
      }
    }
  }

  lemma Utf8HasNoNul(cp: nat)
    ensures NUL in CodePointToUtf8(cp) <==> cp == 0
  {
  }

  lemma DecodeHex4At(doc: string, i: nat, j: nat, end: nat, h: string)
    requires At(doc, i, j, h) && IsHex4(h) && j <= end <= |doc|
    ensures DecodeHex4(doc, i, end) == CodePoint(HexNumber(h), j)
  {
    var n1 := HexDigitValue(h[0]);
    var n2 := n1 * 16 + HexDigitValue(h[1]);
    var n3 := n2 * 16 + HexDigitValue(h[2]);
    assert DecodeDigits(doc, i, 0, 0) == DecodeDigits(doc, i + 1, 1, n1);
    assert DecodeDigits(doc, i + 1, 1, n1) == DecodeDigits(doc, i + 2, 2, n2);
    assert DecodeDigits(doc, i + 2, 2, n2) == DecodeDigits(doc, i + 3, 3, n3);
    assert DecodeDigits(doc, i + 3, 3, n3) == DecodeDigits(doc, i + 4, 4, HexNumber(h));
  }

  lemma BackslashU(doc: string, i: nat, j: nat)
    requires At(doc, i, j, "\\u")
    ensures j == i + 2 <= |doc| && doc[i] == '\\' && doc[i + 1] == 'u'
  {
    AtFirst(doc, i, j, "\\u");
    AtFirst(doc, i + 1, j, "u");
  }

  lemma ReadUnicode(doc: string, token: Token, i: nat, j: nat, end: nat, h: string, decoded: string)
    requires IsHex4(h) && !IsHighSurrogate(HexNumber(h)) && At(doc, i, j, "\\u" + h) && j <= end <= |doc|
    ensures ScanString(doc, i) == ScanString(doc, j)
    ensures DecodeFrom(doc, token, i, end, decoded)
         == DecodeFrom(doc, token, j, end, decoded + CodePointToUtf8(HexNumber(h)))
  {
    hide HexNumber, CodePointToUtf8;
    var m := AtSplit(doc, i, j, "\\u", h);
    BackslashU(doc, i, m);
    DecodeHex4At(doc, m, j, end, h);
    ScanSkipsHex4(doc, m, end);
    assert DecodeCodePoint(doc, m, end) == CodePoint(HexNumber(h), j);
  }

  lemma PairIsDecoded(doc: string, i: nat, j: nat, end: nat, high: string, low: string)
    requires IsHex4(high) && IsHex4(low) && IsHighSurrogate(HexNumber(high))
    requires At(doc, i, j, "\\u" + high + ("\\u" + low)) && j <= end <= |doc|
    ensures At(doc, i, i + 2, "\\u")
    ensures DecodeCodePoint(doc, i + 2, end) == CodePoint(Combine(HexNumber(high), HexNumber(low)), j)
  {
    hide HexNumber, CodePointToUtf8, Combine;
    var m2 := AtSplit(doc, i, j, "\\u" + high, "\\u" + low);
    var m1 := AtSplit(doc, i, m2, "\\u", high);
    var m3 := AtSplit(doc, m2, j, "\\u", low);
    BackslashU(doc, i, m1);
    BackslashU(doc, m2, m3);
    DecodeHex4At(doc, m1, m2, end, high);
    DecodeHex4At(doc, m3, j, end, low);
  }

  /** The scanner steps over an item, and the decoder reads it as the bytes it denotes. */
  lemma ReadItem(doc: string, token: Token, i: nat, j: nat, end: nat, item: Item, decoded: string)
    requires LooseItem(item) && At(doc, i, j, ItemText(item)) && j <= end <= |doc|
    ensures ScanString(doc, i) == ScanString(doc, j)
    ensures DecodeFrom(doc, token, i, end, decoded) == DecodeFrom(doc, token, j, end, decoded + ItemBytes(item))
  {
    match item
    case Unescaped(_) =>
      AtFirst(doc, i, j, ItemText(item));
    case Escape(e) =>
      AtFirst(doc, i, j, ItemText(item));
      assert ItemText(item)[1..] == [e];
      AtFirst(doc, i + 1, j, [e]);
    case Unicode(h) =>
      ReadUnicode(doc, token, i, j, end, h, decoded);
    case Pair(high, low) =>
      PairIsDecoded(doc, i, j, end, high, low);
      BackslashU(doc, i, i + 2);
      ScanSkipsCodePoint(doc, i + 2, end);
  }

  lemma {:induction false} ReadItems(doc: string, token: Token, i: nat, j: nat, items: seq<Item>, decoded: string)
    requires LooseItems(items) && At(doc, i, j, ItemsText(items)) && j < |doc| && doc[j] == '"'
    ensures ScanString(doc, i) == Scan(true, j + 1)
    ensures DecodeFrom(doc, token, i, j, decoded) == Decoded(decoded + ItemsBytes(items), false)
    decreases |items|
  {
    hide ItemText, ItemBytes, LooseItem;
    if items != [] {
      var bytes := ItemBytes(items[0]);
      var m := AtSplit(doc, i, j, ItemText(items[0]), ItemsText(items[1..]));
      ReadItem(doc, token, i, m, j, items[0], decoded);
      ReadItems(doc, token, m, j, items[1..], decoded + bytes);
      assert (decoded + bytes) + ItemsBytes(items[1..]) == decoded + (bytes + ItemsBytes(items[1..]));
    } else {
      assert decoded + "" == decoded;
    }
  }

  /** A string is one token, and decodes to the bytes it denotes. */
  lemma StringIsReadBack(doc: string, i: nat, j: nat, items: seq<Item>)
    requires LooseItems(items) && At(doc, i, j, StringText(items))
    ensures ReadToken(doc, i) == Token(StringToken, i, j)
    ensures DecodeString(doc, ReadToken(doc, i)) == Decoded(ItemsBytes(items), false)
  {
    hide ItemsText, ItemsBytes, LooseItems, DecodeFrom, ScanString;
    var m := AtSplit(doc, i, j, "\"", ItemsText(items) + "\"");
    var n := AtSplit(doc, m, j, ItemsText(items), "\"");
    AtFirst(doc, i, m, "\"");
    AtFirst(doc, n, j, "\"");
    ReadItems(doc, Token(StringToken, i, j), m, n, items, "");
    assert "" + ItemsBytes(items) == ItemsBytes(items);
  }

  /** The escape RFC 8259 gives a scalar value decodes to its RFC 3629 form. */
  lemma EscapedScalarDecodes(doc: string, i: nat, j: nat, cp: nat)
    requires IsScalar(cp) && At(doc, i, j, StringText([EscapeOf(cp)]))
    ensures ReadToken(doc, i) == Token(StringToken, i, j)
    ensures DecodeString(doc, ReadToken(doc, i)) == Decoded(CodePointToUtf8(cp), false)
  {
    if cp > 0xFFFF {
      SurrogatesCombine(cp);
    }
    var item := EscapeOf(cp);
    assert LooseItem(item) && ItemBytes(item) == CodePointToUtf8(cp);
    hide EscapeOf, CodePointToUtf8, LooseItem, ItemBytes, DecodeString, ReadToken, StringText;
    var items := [item];
    StringIsReadBack(doc, i, j, items);
    assert items[1..] == [];
    assert ItemsBytes(items) == CodePointToUtf8(cp) + "";
  }

  ghost function EscapeOf(cp: nat): Item
    requires cp <= MAX_CODE_POINT
  {
    if cp <= 0xFFFF then Unicode(Hex4(cp))
    else
      SurrogatesCombine(cp);
      Pair(Hex4(Surrogates(cp).0), Hex4(Surrogates(cp).1))
  }
}
