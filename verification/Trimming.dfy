// The zero trimming in valueToString(double).  The text itself comes from sprintf("%#.16g").
module Trimming {
  import opened Text
  import opened Numbers

  /** A text of sprintf: head with optional sign, a point, a fraction and maybe an exponent. */
  ghost predicate DecimalText(text: string, head: string, frac: string, exp: string) {
    && text == head + "." + frac + exp
    && AllDigits(if head != "" && head[0] == '-' then head[1..] else head)
    && AllDigits(frac)
    && (exp == "" || (|exp| >= 3 && exp[0] == 'e' && exp[1] in "+-" && AllDigits(exp[2..])))
  }

  /** s without its trailing zeros. */
  ghost function Stripped(s: string): (r: string)
    ensures r <= s && (forall k :: |r| <= k < |s| ==> s[k] == '0')
    ensures r == "" || r[|r| - 1] != '0'
  {
    if s == "" || s[|s| - 1] != '0' then s else Stripped(s[..|s| - 1])
  }

  /** The fraction trimming leaves: one zero is kept, and before an exponent nothing is cut. */
  ghost function KeptFraction(frac: string, exp: string): string {
    if exp == "" && frac != "" && frac[|frac| - 1] == '0' then Stripped(frac) + "0" else frac
  }

  /** buffer holds text and its terminator. */
  ghost predicate HoldsText(buffer: array<char>, text: string)
    reads buffer
  {
    |text| < buffer.Length && buffer[..|text|] == text && buffer[|text|] == NUL
  }

  /** The trimming, src/jsoncpp/jsoncpp.cpp:3466-3494, of what sprintf printed; len is strlen(buffer). */
  method TrimZeros(buffer: array<char>, len: nat,
                   ghost head: string, ghost frac: string, ghost exp: string)
    requires 0 < len < buffer.Length && HoldsText(buffer, buffer[..len])
    requires DecimalText(buffer[..len], head, frac, exp)
    modifies buffer
    ensures HoldsText(buffer, head + "." + KeptFraction(frac, exp) + exp)
    ensures buffer[len + 1..] == old(buffer[len + 1..])
  {
    ghost var text := buffer[..len];
    Shape(text, head, frac, exp);
    hide DecimalText, KeptFraction;
    if buffer[len - 1] != '0' {
      return;
    }
    var lastNonzero := LastNonzero(buffer, len, head, frac, exp);
    var cut := PointBefore(buffer, len, lastNonzero, head, frac, exp);
    if cut {
      CutText(text, head, frac, exp, lastNonzero);
      buffer[lastNonzero + 2] := NUL;
      assert buffer[..lastNonzero + 2] == text[..lastNonzero + 2];
    }
  }

  /** The first loop: back over the zeros. */
  method LastNonzero(buffer: array<char>, len: nat, ghost head: string, ghost frac: string, ghost exp: string)
    returns (ch: nat)
    requires 0 < len <= buffer.Length && DecimalText(buffer[..len], head, frac, exp) && buffer[len - 1] == '0'
    ensures |head| <= ch < len - 1 && buffer[ch] != '0' && forall k :: ch < k < len ==> buffer[k] == '0'
    ensures exp != "" ==> |head| + |frac| + 2 <= ch
  {
    ghost var text := buffer[..len];
    Shape(text, head, frac, exp);
    hide DecimalText, KeptFraction;
    ch := len - 1;
    while ch > 0 && buffer[ch] == '0'
      invariant |head| <= ch < len
      invariant exp != "" ==> |head| + |frac| + 2 <= ch
      invariant forall k :: ch < k < len ==> buffer[k] == '0'
    {
      assert text[ch] == '0';
      ch := ch - 1;
    }
    assert text[ch] == buffer[ch];
  }

  /** The second loop: back over digits, and whether a point comes next. */
  method PointBefore(buffer: array<char>, len: nat, last: nat, ghost head: string, ghost frac: string, ghost exp: string)
    returns (cut: bool)
    requires |head| <= last < len <= buffer.Length && DecimalText(buffer[..len], head, frac, exp)
    requires exp != "" ==> |head| + |frac| + 2 <= last
    ensures cut <==> exp == ""
  {
    ghost var text := buffer[..len];
    Shape(text, head, frac, exp);
    hide DecimalText, KeptFraction;
    var ch: int := last;
    while ch >= 0
      invariant |head| <= ch <= last
      invariant exp != "" ==> |head| + |frac| + 2 <= ch
    {
      assert buffer[ch] == text[ch];
      if IsDigit(buffer[ch]) {
        ch := ch - 1;
      } else {
        return buffer[ch] == '.';
      }
    }
    cut := false;
  }

  /** Where the point, the fraction and the exponent stand. */
  lemma Shape(text: string, head: string, frac: string, exp: string)
    requires DecimalText(text, head, frac, exp)
    ensures |text| == |head| + 1 + |frac| + |exp| && text[|head|] == '.'
    ensures exp != "" ==> text[|head| + |frac| + 2] in "+-"
    ensures forall k :: |head| < k <= |head| + |frac| ==> IsDigit(text[k])
    ensures exp == "" && text[|text| - 1] != '0' ==> KeptFraction(frac, exp) == frac
    ensures exp != "" ==> KeptFraction(frac, exp) == frac
  {
    assert forall k :: |head| < k <= |head| + |frac| ==> text[k] == frac[k - |head| - 1];
    assert exp != "" ==> text[|head| + |frac| + 2] == exp[1];
  }

  lemma CutText(text: string, head: string, frac: string, exp: string, last: nat)
    requires DecimalText(text, head, frac, exp) && exp == ""
    requires |head| <= last && last + 1 < |text| && text[last] != '0'
    requires forall k :: last < k < |text| ==> text[k] == '0'
    ensures text[..last + 2] == head + "." + KeptFraction(frac, exp) + exp
  {
    var n := last - |head|;
    assert forall k :: 0 <= k < |frac| ==> frac[k] == text[|head| + 1 + k];
    StrippedLength(frac, n);
    assert Stripped(frac) == frac[..n];
    assert text[..last + 2] == head + "." + (frac[..n] + "0");
  }

  lemma {:induction false} StrippedLength(s: string, n: nat)
    requires n <= |s| && forall k :: n <= k < |s| ==> s[k] == '0'
    requires n > 0 ==> s[n - 1] != '0'
    ensures |Stripped(s)| == n
  {
  }

  /** The fraction a digit string after the point denotes. */
  ghost function Fraction(s: string): real
    requires AllDigits(s)
  {
    if s == "" then 0.0 else (DigitValue(s[0]) as real + Fraction(s[1..])) / 10.0
  }

  lemma {:induction false} TrailingZeros(s: string, zeros: string)
    requires AllDigits(s) && forall k :: 0 <= k < |zeros| ==> zeros[k] == '0'
    ensures AllDigits(s + zeros) && Fraction(s + zeros) == Fraction(s)
    decreases |s| + |zeros|
  {
    if s != "" {
      assert (s + zeros)[1..] == s[1..] + zeros;
      TrailingZeros(s[1..], zeros);
    } else if zeros != "" {
      assert s + zeros == zeros && zeros[1..] == "" + zeros[1..];
      TrailingZeros("", zeros[1..]);
    }
  }

  /** Trimming keeps the value of the fraction, never lengthens it, leaves at least one digit after the point whenever
      it removes one, and, without an exponent, leaves at most one zero at the end. */
  lemma TrimmingKeepsValue(frac: string, exp: string)
    requires AllDigits(frac)
    ensures AllDigits(KeptFraction(frac, exp)) && Fraction(KeptFraction(frac, exp)) == Fraction(frac)
    ensures |KeptFraction(frac, exp)| <= |frac| && (KeptFraction(frac, exp) == frac || KeptFraction(frac, exp) != "")
    ensures exp == "" ==> var kept := KeptFraction(frac, exp); |kept| >= 2 ==> !(kept[|kept| - 1] == kept[|kept| - 2] == '0')
    ensures exp != "" || (frac != "" && frac[|frac| - 1] != '0') ==> KeptFraction(frac, exp) == frac
  {
    if exp == "" && frac != "" && frac[|frac| - 1] == '0' {
      var r := Stripped(frac);
      assert |r| != |frac|;
      TrailingZeros(r, "0");
      TrailingZeros(r, frac[|r|..]);
      assert frac == r + frac[|r|..];
    }
  }
}
