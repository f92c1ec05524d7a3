// The character classes, escapes, code ranges and number widths that the other modules use, spelled out
// in the numbers of RFC 8259, RFC 3629 and of a two's complement machine.
module Standards {
  import opened Text
  import opened Values
  import opened Numbers
  import opened Scanner
  import opened Unicode
  import opened Strings
  import opened Quoting
  import opened SparseArrays

  /** RFC 8259, sections 2, 6 and 7. */
  lemma CharacterClasses(c: char)
    ensures var n := c as int;
            && (IsSpace(c) <==> n == 0x20 || n == 0x09 || n == 0x0A || n == 0x0D)
            && (IsDigit(c) <==> 0x30 <= n <= 0x39)
            && (IsHexDigit(c) <==> 0x30 <= n <= 0x39 || 0x41 <= n <= 0x46 || 0x61 <= n <= 0x66)
            && (IsNumberChar(c) <==> 0x30 <= n <= 0x39 || n == 0x2B || n == 0x2D || n == 0x2E || n == 0x45 || n == 0x65)
            && (IsControlCharacter(c) <==> 0x01 <= n <= 0x1F)
    ensures IsDigit(c) ==> DigitValue(c) == c as int - 0x30 && HexDigitValue(c) == c as int - 0x30
    ensures 'A' <= c <= 'F' ==> HexDigitValue(c) == c as int - 0x37
    ensures 'a' <= c <= 'f' ==> HexDigitValue(c) == c as int - 0x57
  {
  }

  /** RFC 8259, section 7: the characters behind a backslash, and what they stand for. */
  lemma Escapes(c: char)
    ensures SimpleEscape(c) == match c as int
                               case 0x22 => Some(0x22 as char)
                               case 0x5C => Some(0x5C as char)
                               case 0x2F => Some(0x2F as char)
                               case 0x62 => Some(0x08 as char)
                               case 0x66 => Some(0x0C as char)
                               case 0x6E => Some(0x0A as char)
                               case 0x72 => Some(0x0D as char)
                               case 0x74 => Some(0x09 as char)
                               case _ => None
  {
  }

  /** The code ranges of RFC 3629, section 3; a unit behind a high surrogate counts with its low ten bits. */
  lemma CodeRanges(n: nat, high: nat)
    ensures IsHighSurrogate(n) <==> 0xD800 <= n <= 0xDBFF
    ensures IsLowSurrogate(n) <==> 0xDC00 <= n <= 0xDFFF
    ensures IsScalar(n) <==> n <= 0xD7FF || 0xE000 <= n <= 0x10FFFF
    ensures IsHighSurrogate(high) ==> Combine(high, n) == 0x10000 + (high - 0xD800) * 0x400 + n % 0x400
  {
  }

  /** The widths of the integers. */
  lemma Widths()
    ensures MAX_INT == 2147483647
    ensures TWO_63 == 9223372036854775808
    ensures TWO_64 == 18446744073709551616
    ensures INDEX_RANGE == 4294967296
    ensures MaxMagnitude(false) == 18446744073709551615 && MaxMagnitude(true) == 9223372036854775808
  {
  }

  /** A conversion yields the number of its width that differs by a multiple of its range. */
  lemma Conversions(n: int) returns (q: int, r: int, p: int)
    ensures 0 <= WrapU64(n) < 18446744073709551616 && n == WrapU64(n) + q * 18446744073709551616
    ensures -9223372036854775808 <= WrapI64(n) < 9223372036854775808 && n == WrapI64(n) + r * 18446744073709551616
    ensures -2147483648 <= AsInt32(n) <= 2147483647 && n == AsInt32(n) + p * 4294967296
  {
    q := n / 18446744073709551616;
    r := if WrapI64(n) < 0 then q + 1 else q;
    var d := n / 4294967296;
    p := if AsInt32(n) < 0 then d + 1 else d;
  }
}
