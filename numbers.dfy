/**
 * Integer text and integer bytes as the source produces and consumes them:
 * `u64`'s `Display` (decimal digits), `str::parse::<u64>()`/`usize`/`i32`,
 * and the fixed-width little-endian integers of bincode's default layout.
 */
module Numbers {
  import opened Types
  import Text

  function Pow(b: nat, k: nat): (r: nat)
    requires b >= 1
    ensures r >= 1
  {
    if k == 0 then 1 else b * Pow(b, k - 1)
  }

  // -------------------------------------------------------- decimal text

  predicate IsDigit(c: char) { '0' <= c <= '9' }

  predicate AllDigits(s: string) { forall i :: 0 <= i < |s| ==> IsDigit(s[i]) }

  function DigitChar(d: nat): (c: char)
    requires d < 10
    ensures IsDigit(c) && c as int - '0' as int == d
  {
    ('0' as int + d) as char
  }

  /** The value of a string of decimal digits, most significant first. */
  function DigitsValue(s: string): nat
    requires AllDigits(s)
  {
    if s == [] then 0 else DigitsValue(s[..|s| - 1]) * 10 + (s[|s| - 1] as int - '0' as int)
  }

  /** `n.to_string()`: decimal digits with no leading zero (`"0"` for zero). */
  function ToDecimal(n: nat): (s: string)
    ensures |s| >= 1 && AllDigits(s)
  {
    if n < 10 then [DigitChar(n)] else ToDecimal(n / 10) + [DigitChar(n % 10)]
  }

  /** The digits of `n` give back `n`. */
  lemma {:induction false} ToDecimalValue(n: nat)
    ensures DigitsValue(ToDecimal(n)) == n
  {
    if n >= 10 {
      var s := ToDecimal(n);
      assert s[..|s| - 1] == ToDecimal(n / 10);
      ToDecimalValue(n / 10);
    }
  }

  /** `n` takes at most `k` decimal digits exactly when `n < 10^k`. */
  lemma {:induction false} ToDecimalLength(n: nat, k: nat)
    requires k >= 1
    ensures |ToDecimal(n)| <= k <==> n < Pow(10, k)
  {
    if n >= 10 {
      if k > 1 {
        ToDecimalLength(n / 10, k - 1);
      }
    }
  }

  /** Leading zeros do not change the value of a digit string. */
  lemma {:induction false} LeadingZeros(k: nat, s: string)
    requires AllDigits(s)
    ensures AllDigits(Text.Repeat('0', k) + s)
    ensures DigitsValue(Text.Repeat('0', k) + s) == DigitsValue(s)
    decreases |s|, k
  {
    var z := Text.Repeat('0', k);
    if s == [] {
      assert z + s == z;
      if k > 0 {
        assert z[..k - 1] == Text.Repeat('0', k - 1);
        LeadingZeros(k - 1, []);
        assert Text.Repeat('0', k - 1) + [] == Text.Repeat('0', k - 1);
      }
    } else {
      var t := z + s;
      assert t[..|t| - 1] == z + s[..|s| - 1];
      LeadingZeros(k, s[..|s| - 1]);
    }
  }

  /**
   * `str::parse` for an unsigned type whose largest value is `max`: an optional
   * `+` (not alone), then one or more ASCII digits, the value at most `max`.
   */
  function ParseUnsigned(s: string, max: nat): (r: Option<nat>)
    ensures r.Some? ==> r.value <= max
  {
    if s == [] then None
    else
      var digits := if s[0] == '+' then s[1..] else s;
      if digits != [] && AllDigits(digits) && DigitsValue(digits) <= max then Some(DigitsValue(digits))
      else None
  }

  const I32_MIN: int := -0x8000_0000
  const I32_MAX: int := 0x7FFF_FFFF

  /**
   * `str::parse::<i32>()`: an optional `+` or `-` (not alone), then one or more
   * ASCII digits, the value within `i32`.
   */
  function ParseI32(s: string): (r: Option<int>)
    ensures r.Some? ==> I32_MIN <= r.value <= I32_MAX
  {
    if s == [] then None
    else
      var negative := s[0] == '-';
      var digits := if s[0] == '+' || s[0] == '-' then s[1..] else s;
      if digits == [] || !AllDigits(digits) then None
      else
        var v: int := DigitsValue(digits);
        if negative then (if v <= -I32_MIN then Some(-v) else None)
        else if v <= I32_MAX then Some(v)
        else None
  }

  /** A non-empty run of digits within `i32` parses to its value. */
  lemma ParseI32Digits(s: string)
    requires s != [] && AllDigits(s) && DigitsValue(s) <= I32_MAX
    ensures ParseI32(s) == Some(DigitsValue(s))
  {
    assert IsDigit(s[0]);
  }

  /** A `-` followed by a non-empty run of digits no larger than 2^31 parses to its negation. */
  lemma ParseI32Negative(d: string)
    requires d != [] && AllDigits(d) && DigitsValue(d) <= -I32_MIN
    ensures ParseI32(['-'] + d) == Some(-(DigitsValue(d) as int))
  {
    assert (['-'] + d)[1..] == d;
  }

  /** A number formatted with `{:0>w$}` parses back to itself. */
  lemma ParsePadded(n: nat, w: nat, max: nat)
    requires n <= max
    ensures ParseUnsigned(Text.PadLeft(ToDecimal(n), '0', w), max) == Some(n)
  {
    var d := ToDecimal(n);
    ToDecimalValue(n);
    if |d| < w {
      LeadingZeros(w - |d|, d);
    }
    ParseDigits(Text.PadLeft(d, '0', w), max);
  }

  /** A non-empty string of digits whose value is at most `max` parses to that value. */
  lemma ParseDigits(s: string, max: nat)
    requires s != [] && AllDigits(s) && DigitsValue(s) <= max
    ensures ParseUnsigned(s, max) == Some(DigitsValue(s))
  {
    assert IsDigit(s[0]);
  }

  // ------------------------------------------------- little-endian integers

  /** The `k`-byte little-endian encoding of `n` (bits above `8k` are dropped). */
  function LeBytes(n: nat, k: nat): (r: seq<Byte>)
    ensures |r| == k
  {
    if k == 0 then [] else [n % 256] + LeBytes(n / 256, k - 1)
  }

  /** The value of little-endian bytes. */
  function LeValue(b: seq<Byte>): nat
  {
    if b == [] then 0 else b[0] + 256 * LeValue(b[1..])
  }

  lemma {:induction false} LeRoundTrip(n: nat, k: nat)
    requires n < Pow(256, k)
    ensures LeValue(LeBytes(n, k)) == n
  {
    if k > 0 {
      LeRoundTrip(n / 256, k - 1);
      assert LeBytes(n, k)[1..] == LeBytes(n / 256, k - 1);
    }
  }

  lemma {:induction false} LeValueBound(b: seq<Byte>)
    ensures LeValue(b) < Pow(256, |b|)
  {
    if b != [] {
      LeValueBound(b[1..]);
    }
  }

  /** Little-endian bytes are the encoding of their value. */
  lemma {:induction false} LeBytesValue(b: seq<Byte>)
    ensures LeBytes(LeValue(b), |b|) == b
  {
    if b != [] {
      LeBytesValue(b[1..]);
      assert LeValue(b) % 256 == b[0];
      assert LeValue(b) / 256 == LeValue(b[1..]);
    }
  }
}
