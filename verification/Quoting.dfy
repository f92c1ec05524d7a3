// valueToQuotedString (json_writer.cpp).
module Quoting {
  import opened Text
  import opened Unicode
  import opened Strings

  predicate IsControlCharacter(c: char) {
    0 < c as nat <= 0x1F
  }

  /** Some character of str is a control character. */
  method ContainsControlCharacter(str: CString) returns (found: bool)
    ensures found <==> exists k :: 0 <= k < |str| && IsControlCharacter(str[k])
  {
    var i := 0;
    while i < |str|
      invariant 0 <= i <= |str|
      invariant forall k :: 0 <= k < i ==> !IsControlCharacter(str[k])
    {
      if IsControlCharacter(str[i]) {
        return true;
      }
      i := i + 1;
    }
    return false;
  }

  /** The characters with an escape of their own. */
  const SPECIAL: string := ['"', '\\', '\U{08}', '\U{0C}', '\n', '\r', '\t']

  /** The grammar item a byte is printed as. */
  ghost function QuoteItem(c: char): Item {
    match c
    case '"' => Escape('"')
    case '\\' => Escape('\\')
    case '\U{08}' => Escape('b')
    case '\U{0C}' => Escape('f')
    case '\n' => Escape('n')
    case '\r' => Escape('r')
    case '\t' => Escape('t')
    case _ => if IsControlCharacter(c) then Item.Unicode(Hex4(c as nat)) else Unescaped(c)
  }

  /** Upper-case hexadecimal digits only. */
  ghost predicate UpperHex(h: string) {
    forall k :: 0 <= k < |h| ==> '0' <= h[k] <= '9' || 'A' <= h[k] <= 'F'
  }

  /** How a byte is printed: two characters for those with an escape of their own, four upper-case hexadecimal digits
      for other control characters, and as it stands otherwise. */
  lemma QuotedForm(c: char)
    requires c != NUL
    ensures var text := ItemText(QuoteItem(c));
            match c as int
            case 0x22 => text == "\\\""
            case 0x5C => text == "\\\\"
            case 0x08 => text == "\\b"
            case 0x0C => text == "\\f"
            case 0x0A => text == "\\n"
            case 0x0D => text == "\\r"
            case 0x09 => text == "\\t"
            case n =>
              if n <= 0x1F then exists h :: IsHex4(h) && UpperHex(h) && HexNumber(h) == n && text == "\\u" + h
              else text == [c]
  {
    UpperHex4(c as nat % 0x1_0000);
    hide Hex4, HexNumber, IsHex4, UpperHex;
  }

  lemma UpperHex4(n: nat)
    requires n <= 0xFFFF
    ensures UpperHex(Hex4(n))
  {
  }

  ghost function QuoteItems(s: string): seq<Item> {
    if s == "" then [] else [QuoteItem(s[0])] + QuoteItems(s[1..])
  }

  /** Printed strings are in the grammar and denote what was printed. */
  lemma {:induction false} QuotedDenotes(s: CString)
    ensures ValidItems(QuoteItems(s)) && ItemsBytes(QuoteItems(s)) == s
  {
    if s != "" {
      QuotedDenotes(s[1..]);
      var items := QuoteItems(s);
      assert ValidItem(items[0]) && ItemBytes(items[0]) == [s[0]] by {
        QuotedItem(s[0]);
      }
      assert items[1..] == QuoteItems(s[1..]);
      forall k | 0 <= k < |items| ensures ValidItem(items[k]) {
        assert k > 0 ==> items[k] == items[1..][k - 1];
      }
      assert s == [s[0]] + s[1..];
    }
  }

  lemma QuotedItem(c: char)
    requires c != NUL
    ensures ValidItem(QuoteItem(c)) && ItemBytes(QuoteItem(c)) == [c]
  {
  }

  /** A string without special characters is printed as it stands. */
  lemma {:induction false} NothingToEscape(s: string)
    requires forall k :: 0 <= k < |s| ==> s[k] !in SPECIAL && !IsControlCharacter(s[k])
    ensures ItemsText(QuoteItems(s)) == s
  {
    if s != "" {
      NothingToEscape(s[1..]);
      assert QuoteItem(s[0]) == Unescaped(s[0]);
      assert s == [s[0]] + s[1..];
    }
  }

  lemma QuoteStep(s: string, i: nat)
    requires i < |s|
    ensures ItemsText(QuoteItems(s[i..])) == ItemText(QuoteItem(s[i])) + ItemsText(QuoteItems(s[i + 1..]))
  {
    assert s[i..][1..] == s[i + 1..];
    var rest := QuoteItems(s[i + 1..]);
    assert ([QuoteItem(s[i])] + rest)[1..] == rest;
  }

  /** One turn of the loop. */
  method AppendQuoted(before: string, c: char) returns (result: string)
    requires c != NUL
    ensures result == before + ItemText(QuoteItem(c))
  {
    hide Hex4;
    result := before;
    match c {
      case '"' => result := result + "\\\"";
      case '\\' => result := result + "\\\\";
      case '\U{08}' => result := result + "\\b";
      case '\U{0C}' => result := result + "\\f";
      case '\n' => result := result + "\\n";
      case '\r' => result := result + "\\r";
      case '\t' => result := result + "\\t";
      case _ =>
        if IsControlCharacter(c) {
          result := result + ("\\u" + Hex4(c as nat));
        } else {
          result := result + [c];
        }
    }
  }

  /** valueToQuotedString: the string token of the printed items, on either path. */
  method ValueToQuotedString(value: CString) returns (result: string)
    ensures result == StringText(QuoteItems(value))
  {
    hide QuoteItems, ItemsText, QuoteItem, ItemText;
    assert value[0..] == value;
    var control := ContainsControlCharacter(value);
    if (forall c | c in value :: c !in SPECIAL) && !control {
      NothingToEscape(value);
      assert ("\"" + value) + "\"" == "\"" + (value + "\"");
      return "\"" + value + "\"";
    }
    result := "\"";
    var i := 0;
    while i < |value|
      invariant 0 <= i <= |value|
      invariant result + ItemsText(QuoteItems(value[i..])) == "\"" + ItemsText(QuoteItems(value))
    {
      QuoteStep(value, i);
      ghost var before, rest := result, ItemsText(QuoteItems(value[i + 1..]));
      ghost var text := ItemText(QuoteItem(value[i]));
      result := AppendQuoted(result, value[i]);
      assert result + rest == before + (text + rest);
      i := i + 1;
    }
    assert value[i..] == "";
    NothingToEscape("");
    assert result + "" == result;
    assert ("\"" + ItemsText(QuoteItems(value))) + "\"" == StringText(QuoteItems(value));
    result := result + "\"";
  }
}
