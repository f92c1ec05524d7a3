// Decimal text of 64-bit integers: printing (json_tool.h, json_writer.cpp) and the integer
// half of Reader::decodeNumber.
module Numbers {
  import opened Text
  import opened Values

  function Digit(d: nat): char
    requires d < 10
  {
    '0' + d as char
  }

  function DigitValue(c: char): nat
    requires IsDigit(c)
  {
    c as nat - '0' as nat
  }

  /** The number a digit string denotes, most significant digit first. */
  ghost function Denotes(s: string): nat
    requires AllDigits(s)
  {
    if s == "" then 0 else Denotes(s[..|s| - 1]) * 10 + DigitValue(s[|s| - 1])
  }

  /** The decimal text of n, without leading zeros. */
  ghost function Decimal(n: nat): (s: string)
    ensures |s| > 0 && AllDigits(s)
    ensures |s| > 1 ==> s[0] != '0'
    ensures Denotes(s) == n
  {
    if n < 10 then [Digit(n)]
    else
      var s := Decimal(n / 10) + [Digit(n % 10)];
      assert s[..|s| - 1] == Decimal(n / 10);
      s
  }

  /** The decimal text of an integer. */
  ghost function IntegerText(i: int): string {
    if i < 0 then "-" + Decimal(-i) else Decimal(i)
  }

  ghost function Pow10(k: nat): nat {
    if k == 0 then 1 else 10 * Pow10(k - 1)
  }

  lemma {:induction false} DecimalLength(n: nat, k: nat)
    requires k > 0 && n < Pow10(k)
    ensures |Decimal(n)| <= k
  {
    if n >= 10 {
      DecimalLength(n / 10, k - 1);
    }
  }

  lemma UInt64Length(n: UInt64)
    ensures |Decimal(n)| <= 20
  {
    assert Pow10(4) == 10000;
    assert Pow10(8) == 10000 * Pow10(4);
    assert Pow10(12) == 10000 * Pow10(8);
    assert Pow10(16) == 10000 * Pow10(12);
    assert Pow10(20) == 10000 * Pow10(16);
    DecimalLength(n, 20);
  }

  // ---------- printing ----------

  /** UIntToStringBuffer holds 3 * sizeof(LargestUInt) + 1 characters. */
  const BUFFER_SIZE: nat := 25

  /** *--current = c, where end marks the part of the buffer already written. */
  method Prepend(buffer: array<char>, current: nat, c: char, ghost end: nat) returns (next: nat)
    requires 0 < current <= end <= buffer.Length
    modifies buffer
    ensures next == current - 1
    ensures buffer[next..end] == [c] + old(buffer[current..end])
    ensures buffer[..next] == old(buffer[..next]) && buffer[end..] == old(buffer[end..])
  {
    next := current - 1;
    buffer[next] := c;
  }

  /** The digits of n that remain to be written: none once n is used up. */
  ghost function DigitsToCome(n: nat, again: bool): string {
    if again then Decimal(n) else ""
  }

  lemma RemainingStep(n: nat, written: string)
    ensures DigitsToCome(n, true) + written == DigitsToCome(n / 10, n / 10 != 0) + ([Digit(n % 10)] + written)
  {
  }

  /** Writes the decimal digits of value, and a terminator after them, downwards from current. */
  method UIntToString(value: UInt64, buffer: array<char>, current: nat) returns (first: nat)
    requires 21 <= current <= buffer.Length
    modifies buffer
    ensures current - 21 <= first < current
    ensures buffer[first..current] == Decimal(value) + [NUL]
    ensures buffer[..first] == old(buffer[..first]) && buffer[current..] == old(buffer[current..])
  {
    UInt64Length(value);
    ghost var whole := Decimal(value) + [NUL];
    assert |whole| <= 21;
    first := Prepend(buffer, current, NUL, current);
    ghost var written := buffer[first..current];
    var rest, again: bool := value as nat, true;
    while again
      invariant 0 <= first < current && written == buffer[first..current]
      invariant buffer[..first] == old(buffer[..first]) && buffer[current..] == old(buffer[current..])
      invariant whole == DigitsToCome(rest, again) + written
      decreases again, rest
    {
      RemainingStep(rest, written);
      assert |whole| == |DigitsToCome(rest, true)| + |written|;
      first := Prepend(buffer, first, Digit(rest % 10), current);
      written := [Digit(rest % 10)] + written;
      rest := rest / 10;
      again := rest != 0;
    }
  }

  /** The C string that starts at position i of the buffer. */
  method CStringAt(buffer: array<char>, i: nat, ghost s: string) returns (text: string)
    requires i + |s| < buffer.Length && NUL !in s
    requires buffer[i..i + |s| + 1] == s + [NUL]
    ensures text == s
  {
    text := "";
    var k := i;
    assert forall j :: i <= j <= i + |s| ==> buffer[j] == buffer[i..i + |s| + 1][j - i];
    while buffer[k] != NUL
      invariant i <= k <= i + |s|
      invariant text == s[..k - i]
      decreases i + |s| - k
    {
      text := text + [buffer[k]];
      k := k + 1;
    }
  }

  lemma DecimalHasNoNul(n: nat)
    ensures NUL !in Decimal(n)
  {
  }

  /** valueToString(LargestInt); negation wraps as on a two's complement machine. */
  method ValueToStringInt(value: Int64) returns (text: string)
    ensures text == IntegerText(value)
  {
    var buffer := new char[BUFFER_SIZE];
    var isNegative := value < 0;
    var magnitude: int := if isNegative then WrapI64(-(value as int)) else value;
    assert WrapU64(magnitude) == if value < 0 then -(value as int) else value as int;
    var current := UIntToString(WrapU64(magnitude), buffer, BUFFER_SIZE);
    assert buffer[current..] == buffer[current..BUFFER_SIZE];
    DecimalHasNoNul(WrapU64(magnitude));
    if isNegative {
      ghost var digits := buffer[current..];
      current := current - 1;
      buffer[current] := '-';
      assert buffer[current..] == ['-'] + digits;
    }
    assert buffer[current..] == IntegerText(value) + [NUL] by {
      assert ['-'] + (Decimal(WrapU64(magnitude)) + [NUL]) == ['-'] + Decimal(WrapU64(magnitude)) + [NUL];
    }
    assert buffer[current..] == buffer[current..current + |IntegerText(value)| + 1];
    text := CStringAt(buffer, current, IntegerText(value));
  }

  /** valueToString(LargestUInt) */
  method ValueToStringUInt(value: UInt64) returns (text: string)
    ensures text == IntegerText(value)
  {
    var buffer := new char[BUFFER_SIZE];
    var current := UIntToString(value, buffer, BUFFER_SIZE);
    DecimalHasNoNul(value);
    assert buffer[current..] == buffer[current..current + |Decimal(value)| + 1];
    text := CStringAt(buffer, current, Decimal(value));
  }

  // ---------- reading ----------

  /** What the digit loop of decodeNumber comes to. */
  datatype Accumulated = Whole(n: UInt64) | AsDouble | NotDigits

  /** The digit loop from position i on, with the 64-bit accumulator at value. */
  function Accumulate(text: string, i: nat, value: UInt64, max: nat): Accumulated
    requires i <= |text|
    decreases |text| - i
  {
    if i == |text| then Whole(value)
    else if !IsDigit(text[i]) then NotDigits
    else if value >= max / 10 && (i + 1 != |text| || DigitValue(text[i]) > max % 10) then AsDouble
    else Accumulate(text, i + 1, WrapU64(value * 10 + DigitValue(text[i])), max)
  }

  lemma AllDigitsPrefix(s: string, i: nat)
    requires AllDigits(s) && i <= |s|
    ensures AllDigits(s[..i])
  {
  }

  /** Prefixes of a digit string denote smaller numbers. */
  lemma {:induction false} PrefixSmaller(s: string, i: nat, j: nat)
    requires AllDigits(s) && i <= j <= |s|
    ensures AllDigits(s[..i]) && AllDigits(s[..j])
    ensures Denotes(s[..i]) <= Denotes(s[..j])
    decreases j
  {
    if i < j {
      PrefixSmaller(s, i, j - 1);
      assert s[..j][..j - 1] == s[..j - 1];
    }
  }

  lemma DenotesStep(s: string, i: nat)
    requires AllDigits(s) && i < |s|
    ensures Denotes(s[..i + 1]) == Denotes(s[..i]) * 10 + DigitValue(s[i])
  {
    assert s[..i + 1][..i] == s[..i];
  }

  /** Exactly the digit strings whose value does not fit but which the loop nevertheless takes
      for integers: the guard compares only with >=, so a prefix above the threshold passes if
      the final digit is small. */
  ghost predicate Wraps(n: nat, max: nat) {
    n > max && n / 100 < max / 10 && n % 10 <= max % 10
  }

  /** The digit loop on every digit string: it yields the number when that fits, a double when
      it does not, and a wrapped integer in the cases of Wraps. */
  ghost function Accumulation(n: nat, max: nat): Accumulated {
    if n <= max || Wraps(n, max) then Whole(WrapU64(n)) else AsDouble
  }

  /** The guard at the last digit, in terms of the whole number. */
  lemma LastDigit(before: nat, d: nat, max: nat)
    requires d < 10 && before / 10 < max / 10
    ensures var n := before * 10 + d;
            n <= max || Wraps(n, max) <==> !(before >= max / 10 && d > max % 10)
  {
    var n, q, r := before * 10 + d, max / 10, max % 10;
    assert max == q * 10 + r;
    assert n / 10 == before && n % 10 == d;
    assert n / 100 == before / 10;
  }

  /** The digit loop from the last digit on. */
  lemma AccumulateLast(s: string, i: nat, max: nat)
    requires AllDigits(s) && i + 1 == |s| && 1000 <= max < TWO_64
    requires i > 0 ==> Denotes(s[..i - 1]) < max / 10
    requires AllDigits(s[..i]) && Denotes(s[..i]) < TWO_64
    ensures Accumulate(s, i, Denotes(s[..i]), max) == Accumulation(Denotes(s), max)
  {
    DenotesStep(s, i);
    assert s[..|s|] == s;
    var before, d := Denotes(s[..i]), DigitValue(s[i]);
    assert before / 10 < max / 10 by {
      if i > 0 { DenotesStep(s, i - 1); }
    }
    LastDigit(before, d, max);
    var wrapped := WrapU64(before * 10 + d);
    hide Wraps, WrapU64, DigitValue, Denotes;
    assert Accumulate(s, i + 1, wrapped, max) == Whole(wrapped);
  }

  /** The digit loop from any digit on, as long as it has not fallen back to a double. */
  lemma {:induction false} AccumulateFrom(s: string, i: nat, max: nat)
    requires AllDigits(s) && i < |s| && 1000 <= max < TWO_64
    requires i > 0 ==> Denotes(s[..i - 1]) < max / 10
    requires AllDigits(s[..i]) && Denotes(s[..i]) < TWO_64
    ensures Accumulate(s, i, Denotes(s[..i]), max) == Accumulation(Denotes(s), max)
    decreases |s| - i
  {
    var before := Denotes(s[..i]);
    if i + 1 == |s| {
      AccumulateLast(s, i, max);
    } else if before >= max / 10 {
      LargePrefix(s, i, max);
    } else {
      DenotesStep(s, i);
      var next := before * 10 + DigitValue(s[i]);
      assert next < max && WrapU64(next) == next;
      AllDigitsPrefix(s, i + 1);
      assert Accumulate(s, i, before, max) == Accumulate(s, i + 1, next, max);
      AccumulateFrom(s, i + 1, max);
    }
  }

  /** A prefix, other than the two longest, at the threshold makes the number too large. */
  lemma {:induction false} LargePrefix(s: string, i: nat, max: nat)
    requires AllDigits(s) && i + 2 <= |s| && 1000 <= max
    requires AllDigits(s[..i]) && Denotes(s[..i]) >= max / 10
    ensures Accumulation(Denotes(s), max) == AsDouble
  {
    var last := |s| - 1;
    PrefixSmaller(s, i, last - 1);
    DenotesStep(s, last - 1);
    DenotesStep(s, last);
    assert s[..|s|] == s;
  }

  /** The digit loop of decodeNumber from its start, on every string of digits. */
  lemma AccumulateExactly(s: string, max: nat)
    requires AllDigits(s) && 1000 <= max < TWO_64
    ensures Accumulate(s, 0, 0, max) == Accumulation(Denotes(s), max)
  {
    if s != "" {
      AccumulateFrom(s, 0, max);
    }
  }

  /** The largest magnitude of a number with that sign; uint64(-minLargestInt) is 2^63. */
  function MaxMagnitude(negative: bool): UInt64 {
    if negative then TWO_63 else TWO_64 - 1
  }

  /** The value stored for an accumulated magnitude (lines 785-790). */
  function StoredInteger(negative: bool, n: UInt64): Value {
    if negative then Int(WrapI64(-WrapI64(n)))
    else if n <= MAX_INT then Int(n)
    else UInt(n)
  }

  /** The integer a number token without point, exponent or plus denotes. */
  ghost function Signed(negative: bool, digits: string): int
    requires AllDigits(digits)
  {
    if negative then -(Denotes(digits) as int) else Denotes(digits) as int
  }

  /** The integer a number value stands for. */
  function IntegerOf(v: Value): int
    requires v.Int? || v.UInt?
  {
    if v.Int? then v.i as int else v.u as int
  }

  lemma StoredExactly(negative: bool, n: nat)
    requires n <= MaxMagnitude(negative)
    ensures StoredInteger(negative, n) == IntegerValue(if negative then -(n as int) else n as int)
  {
    if negative && n == TWO_63 {
      assert WrapI64(n) == -TWO_63;
    } else if negative {
      assert WrapI64(n) == n;
    }
  }

  /** decodeNumber on a token of digits with an optional minus: it stores the number the token
      denotes if and only if that number is in [-2^63, 2^64-1]; otherwise it falls back to a
      double, except for the magnitudes of Wraps. */
  lemma IntegerExactness(negative: bool, digits: string)
    requires AllDigits(digits)
    ensures var max := MaxMagnitude(negative);
            var r := Accumulate(digits, 0, 0, max);
            var n := Signed(negative, digits);
            && (r.Whole? && IntegerOf(StoredInteger(negative, r.n)) == n <==> -TWO_63 <= n < TWO_64)
            && (-TWO_63 <= n < TWO_64 ==> r.Whole? && StoredInteger(negative, r.n) == IntegerValue(n)
                                          && (IntegerValue(n).Int? <==> n <= 2147483647))
            && (r.AsDouble? <==> !(-TWO_63 <= n < TWO_64) && !Wraps(Denotes(digits), max))
  {
    AccumulateExactly(digits, MaxMagnitude(negative));
    var n := Denotes(digits);
    if n <= MaxMagnitude(negative) {
      StoredExactly(negative, n);
    }
  }
}
