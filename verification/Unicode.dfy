// codePointToUTF8 (json_tool.h), and RFC 3629 as the reference it is proved against.
module Unicode {
  import opened Text

  const MAX_CODE_POINT: nat := 0x10FFFF

  /** codePointToUTF8: masks and shifts by powers of two, written as % and /. */
  function CodePointToUtf8(cp: nat): string {
    if cp <= 0x7F then [Byte(cp)]
    else if cp <= 0x7FF then [Byte(0xC0 + cp / 64 % 32), Byte(0x80 + cp % 64)]
    else if cp <= 0xFFFF then
      [Byte(0xE0 + cp / 4096 % 16), Byte(0x80 + cp / 64 % 64), Byte(0x80 + cp % 64)]
    else if cp <= MAX_CODE_POINT then
      [Byte(0xF0 + cp / 0x40000 % 8), Byte(0x80 + cp / 4096 % 64), Byte(0x80 + cp / 64 % 64), Byte(0x80 + cp % 64)]
    else ""
  }

  function Byte(b: nat): char
    requires b < 256
  {
    b as char
  }

  predicate IsHighSurrogate(n: nat) { 0xD800 <= n <= 0xDBFF }

  predicate IsLowSurrogate(n: nat) { 0xDC00 <= n <= 0xDFFF }

  /** Unicode scalar values: every code point but the surrogates. */
  predicate IsScalar(cp: nat) {
    cp <= MAX_CODE_POINT && !IsHighSurrogate(cp) && !IsLowSurrogate(cp)
  }

  // ---------- RFC 3629 ----------

  /** UTF8-tail of RFC 3629, section 4. */
  predicate IsTail(c: char) { 0x80 <= c as nat <= 0xBF }

  /** One character of the UTF8-octets grammar of RFC 3629, section 4. */
  predicate IsUtf8Char(s: string) {
    match |s|
    case 1 => s[0] as nat <= 0x7F
    case 2 => 0xC2 <= s[0] as nat <= 0xDF && IsTail(s[1])
    case 3 =>
      && IsTail(s[1]) && IsTail(s[2])
      && 0xE0 <= s[0] as nat <= 0xEF
      && (s[0] as nat == 0xE0 ==> s[1] as nat >= 0xA0)
      && (s[0] as nat == 0xED ==> s[1] as nat <= 0x9F)
    case 4 =>
      && IsTail(s[1]) && IsTail(s[2]) && IsTail(s[3])
      && 0xF0 <= s[0] as nat <= 0xF4
      && (s[0] as nat == 0xF0 ==> s[1] as nat >= 0x90)
      && (s[0] as nat == 0xF4 ==> s[1] as nat <= 0x8F)
    case _ => false
  }

  /** The character number the bits of section 3 of RFC 3629 spell. */
  function CharacterNumber(s: string): nat
    requires IsUtf8Char(s)
  {
    match |s|
    case 1 => s[0] as nat
    case 2 => (s[0] as nat - 0xC0) * 64 + (s[1] as nat - 0x80)
    case 3 => ((s[0] as nat - 0xE0) * 64 + (s[1] as nat - 0x80)) * 64 + (s[2] as nat - 0x80)
    case _ => (((s[0] as nat - 0xF0) * 64 + (s[1] as nat - 0x80)) * 64 + (s[2] as nat - 0x80)) * 64 + (s[3] as nat - 0x80)
  }

  /** n written with its six-bit digits, the form both directions reason about. */
  lemma SixBits(n: nat, x: nat, y: nat, z: nat, w: nat)
    requires n == x * 0x40000 + y * 4096 + z * 64 + w
    requires y < 64 && z < 64 && w < 64
    ensures n % 64 == w && n / 64 % 64 == z && n / 4096 % 64 == y && n / 0x40000 == x
    ensures n / 64 == x * 4096 + y * 64 + z && n / 4096 == x * 64 + y
  {
    assert n / 64 == x * 4096 + y * 64 + z;
    assert n / 4096 == x * 64 + y;
    assert n / 0x40000 == x;
  }

  lemma HasSixBits(n: nat) returns (x: nat, y: nat, z: nat, w: nat)
    ensures n == x * 0x40000 + y * 4096 + z * 64 + w && y < 64 && z < 64 && w < 64
  {
    var n1 := n / 64;
    var n2 := n1 / 64;
    x, y, z, w := n2 / 64, n2 % 64, n1 % 64, n % 64;
  }

  /** On scalar values the encoder emits exactly the RFC 3629 form of the character number. */
  lemma EncodesRfc3629(cp: nat)
    requires IsScalar(cp)
    ensures IsUtf8Char(CodePointToUtf8(cp)) && CharacterNumber(CodePointToUtf8(cp)) == cp
  {
    var x, y, z, w := HasSixBits(cp);
    EncodedBits(cp, x, y, z, w);
    hide CodePointToUtf8;
  }

  /** The encoded form, in terms of the six-bit digits. */
  lemma EncodedBits(cp: nat, x: nat, y: nat, z: nat, w: nat)
    requires cp <= MAX_CODE_POINT && cp == x * 0x40000 + y * 4096 + z * 64 + w
    requires y < 64 && z < 64 && w < 64
    ensures CodePointToUtf8(cp)
         == if cp <= 0x7F then [Byte(w + z * 64)]
            else if cp <= 0x7FF then [Byte(0xC0 + z), Byte(0x80 + w)]
            else if cp <= 0xFFFF then [Byte(0xE0 + y), Byte(0x80 + z), Byte(0x80 + w)]
            else [Byte(0xF0 + x), Byte(0x80 + y), Byte(0x80 + z), Byte(0x80 + w)]
  {
    SixBits(cp, x, y, z, w);
  }

  /** And every RFC 3629 character is what the encoder emits for its number. */
  lemma EveryRfc3629CharIsEmitted(s: string)
    requires IsUtf8Char(s)
    ensures IsScalar(CharacterNumber(s)) && CodePointToUtf8(CharacterNumber(s)) == s
  {
    hide CodePointToUtf8;
    var n := CharacterNumber(s);
    match |s|
    case 1 => EncodedBits(n, 0, 0, n / 64, n % 64);
    case 2 => EncodedBits(n, 0, 0, s[0] as nat - 0xC0, s[1] as nat - 0x80);
    case 3 => EncodedBits(n, 0, s[0] as nat - 0xE0, s[1] as nat - 0x80, s[2] as nat - 0x80);
    case _ => EncodedBits(n, s[0] as nat - 0xF0, s[1] as nat - 0x80, s[2] as nat - 0x80, s[3] as nat - 0x80);
  }

  /** No emitted form is a proper prefix of another one. */
  lemma PrefixFree(a: nat, b: nat)
    requires IsScalar(a) && IsScalar(b) && CodePointToUtf8(a) <= CodePointToUtf8(b)
    ensures a == b
  {
    var s, t := CodePointToUtf8(a), CodePointToUtf8(b);
    EncodesRfc3629(a);
    EncodesRfc3629(b);
    assert s[0] == t[0];
    assert |s| == |t| by { LeadByte(s); LeadByte(t); }
    assert s == t;
  }

  /** The first byte tells the length. */
  lemma LeadByte(s: string)
    requires IsUtf8Char(s)
    ensures |s| == (if s[0] as nat < 0x80 then 1 else if s[0] as nat < 0xE0 then 2
                    else if s[0] as nat < 0xF0 then 3 else 4)
  {
  }

  ghost function EncodeAll(cps: seq<nat>): string {
    if cps == [] then "" else CodePointToUtf8(cps[0]) + EncodeAll(cps[1..])
  }

  /** Concatenated encodings are uniquely decodable. */
  lemma {:induction false} UniquelyDecodable(a: seq<nat>, b: seq<nat>)
    requires forall k :: 0 <= k < |a| ==> IsScalar(a[k])
    requires forall k :: 0 <= k < |b| ==> IsScalar(b[k])
    requires EncodeAll(a) == EncodeAll(b)
    ensures a == b
    decreases |a|
  {
    hide CodePointToUtf8, IsScalar, EncodeAll;
    FirstOfAll(a);
    FirstOfAll(b);
    if a != [] && b != [] {
      var s, t := CodePointToUtf8(a[0]), CodePointToUtf8(b[0]);
      var whole := EncodeAll(a);
      if |s| <= |t| {
        assert s == whole[..|s|] == t[..|s|];
        PrefixFree(a[0], b[0]);
      } else {
        assert t == whole[..|t|] == s[..|t|];
        PrefixFree(b[0], a[0]);
      }
      assert EncodeAll(a[1..]) == whole[|s|..] == EncodeAll(b[1..]);
      UniquelyDecodable(a[1..], b[1..]);
      assert a == [a[0]] + a[1..] && b == [b[0]] + b[1..];
    }
  }

  lemma FirstOfAll(a: seq<nat>)
    requires a != [] ==> IsScalar(a[0])
    ensures if a == [] then EncodeAll(a) == ""
            else EncodeAll(a) == CodePointToUtf8(a[0]) + EncodeAll(a[1..]) && CodePointToUtf8(a[0]) != ""
  {
    if a != [] {
      EncodesRfc3629(a[0]);
    }
    hide CodePointToUtf8;
  }

  // ---------- \u escapes ----------

  predicate IsHexDigit(c: char) {
    IsDigit(c) || 'a' <= c <= 'f' || 'A' <= c <= 'F'
  }

  function HexDigitValue(c: char): nat
    requires IsHexDigit(c)
  {
    if IsDigit(c) then c as nat - '0' as nat
    else if 'a' <= c <= 'f' then c as nat - 'a' as nat + 10
    else c as nat - 'A' as nat + 10
  }

  /** Four hexadecimal digits. */
  predicate IsHex4(h: string) {
    |h| == 4 && IsHexDigit(h[0]) && IsHexDigit(h[1]) && IsHexDigit(h[2]) && IsHexDigit(h[3])
  }

  function HexNumber(h: string): (n: nat)
    requires IsHex4(h)
    ensures n <= 0xFFFF
  {
    ((HexDigitValue(h[0]) * 16 + HexDigitValue(h[1])) * 16 + HexDigitValue(h[2])) * 16 + HexDigitValue(h[3])
  }

  /** The code point of a pair of 16-bit units; only their low ten bits count. */
  function Combine(high: nat, low: nat): nat {
    0x10000 + high % 0x400 * 0x400 + low % 0x400
  }

  /** RFC 8259, section 7: the UTF-16 surrogates of a code point outside the BMP. */
  function Surrogates(cp: nat): (nat, nat)
    requires 0x10000 <= cp <= MAX_CODE_POINT
  {
    (0xD800 + (cp - 0x10000) / 0x400, 0xDC00 + (cp - 0x10000) % 0x400)
  }

  lemma SurrogatesCombine(cp: nat)
    requires 0x10000 <= cp <= MAX_CODE_POINT
    ensures IsHighSurrogate(Surrogates(cp).0) && IsLowSurrogate(Surrogates(cp).1)
    ensures Combine(Surrogates(cp).0, Surrogates(cp).1) == cp
  {
  }

  /** The upper-case hexadecimal digit of d. */
  function HexDigit(d: nat): (c: char)
    requires d < 16
    ensures IsHexDigit(c) && HexDigitValue(c) == d
  {
    if d < 10 then '0' + d as char else 'A' + (d - 10) as char
  }

  lemma HexPositions(n: nat)
    ensures n == ((n / 4096 * 16 + n / 256 % 16) * 16 + n / 16 % 16) * 16 + n % 16
  {
    var n1 := n / 16;
    var n2 := n1 / 16;
    assert n2 == n / 256 && n2 / 16 == n / 4096;
  }

  /** n with setw(4), setfill('0'), hex and uppercase. */
  function Hex4(n: nat): (h: string)
    requires n <= 0xFFFF
    ensures IsHex4(h) && HexNumber(h) == n
  {
    HexPositions(n);
    [HexDigit(n / 4096), HexDigit(n / 256 % 16), HexDigit(n / 16 % 16), HexDigit(n % 16)]
  }
}
