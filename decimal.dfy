/** Decimal rendering of integers, as Rust's `{}` and `{:.6}` formatting produce it for the
    values the duration display prints, with the matching parsers that read the text back. */
module Decimal {

  predicate IsDigit(c: char)
  {
    '0' <= c <= '9'
  }

  predicate AllDigits(s: string)
  {
    forall i :: 0 <= i < |s| ==> IsDigit(s[i])
  }

  function DigitChar(d: int): (c: char)
    requires 0 <= d < 10
    ensures IsDigit(c)
  {
    (d + '0' as int) as char
  }

  function DigitValue(c: char): (d: int)
    requires IsDigit(c)
    ensures 0 <= d < 10 && DigitChar(d) == c
  {
    c as int - '0' as int
  }

  function Pow10(n: nat): (p: nat)
    ensures p >= 1
  {
    if n == 0 then 1 else 10 * Pow10(n - 1)
  }

  /** The decimal numeral of `n`, without leading zeros. */
  function NatToString(n: nat): (s: string)
    ensures |s| > 0 && AllDigits(s)
    ensures n < 10 <==> |s| == 1
  {
    if n < 10 then [DigitChar(n)] else NatToString(n / 10) + [DigitChar(n % 10)]
  }

  /** The value of a string of decimal digits, most significant first. */
  function DigitsValue(s: string): nat
    requires AllDigits(s)
  {
    if |s| == 0 then 0 else 10 * DigitsValue(s[..|s| - 1]) + DigitValue(s[|s| - 1])
  }

  /** Reading a numeral back gives the number it was written from. */
  lemma {:induction false} NatRoundTrip(n: nat)
    ensures DigitsValue(NatToString(n)) == n
  {
    var s := NatToString(n);
    if n >= 10 {
      NatRoundTrip(n / 10);
      assert s[..|s| - 1] == NatToString(n / 10);
    }
  }

  /** Rust's `{}` of an `i64`: a minus sign for negative values, then the numeral of the magnitude. */
  function IntToString(n: int): (s: string)
    ensures |s| > 0
  {
    if n < 0 then "-" + NatToString(-n) else NatToString(n)
  }

  /** Text that reads as an integer: an optional minus sign followed by at least one digit. */
  predicate IsIntText(s: string)
  {
    if |s| > 0 && s[0] == '-' then |s| > 1 && AllDigits(s[1..]) else |s| > 0 && AllDigits(s)
  }

  function ParseInt(s: string): int
    requires IsIntText(s)
  {
    if s[0] == '-' then -(DigitsValue(s[1..]) as int) else DigitsValue(s)
  }

  /** Every integer's text reads back as that integer. */
  lemma IntRoundTrip(n: int)
    ensures IsIntText(IntToString(n)) && ParseInt(IntToString(n)) == n
  {
    if n < 0 {
      NatRoundTrip(-n);
      assert IntToString(n)[1..] == NatToString(-n);
    } else {
      NatRoundTrip(n);
    }
  }

  /** The last `width` decimal digits of `n`, with leading zeros. */
  function PadDigits(n: nat, width: nat): (s: string)
    ensures |s| == width && AllDigits(s)
  {
    if width == 0 then [] else PadDigits(n / 10, width - 1) + [DigitChar(n % 10)]
  }

  /** A number with at most `width` digits reads back from its padded text. */
  lemma {:induction false} PadRoundTrip(n: nat, width: nat)
    requires n < Pow10(width)
    ensures DigitsValue(PadDigits(n, width)) == n
  {
    if width > 0 {
      var s := PadDigits(n, width);
      var q, r := n / 10, n % 10;
      assert n == 10 * q + r && 0 <= r < 10;
      assert q < Pow10(width - 1);
      assert s[..|s| - 1] == PadDigits(q, width - 1) && s[|s| - 1] == DigitChar(r);
      PadRoundTrip(q, width - 1);
    }
  }

  /** Rust's `{:.6}` of a non-negative count of microseconds read as seconds: the whole seconds,
      a point, and six digits of the fraction. */
  function FixedSix(usec: nat): (s: string)
    ensures |s| >= 8 && s[|s| - 7] == '.'
    ensures AllDigits(s[..|s| - 7]) && AllDigits(s[|s| - 6..])
  {
    NatToString(usec / 1_000_000) + "." + PadDigits(usec % 1_000_000, 6)
  }

  /** Reads the text of `FixedSix` back as a count of microseconds. */
  function ParseFixedSix(s: string): nat
    requires |s| >= 8 && AllDigits(s[..|s| - 7]) && AllDigits(s[|s| - 6..])
  {
    1_000_000 * DigitsValue(s[..|s| - 7]) + DigitsValue(s[|s| - 6..])
  }

  /** The six-decimal text keeps every microsecond: it reads back as the count it was written from. */
  lemma FixedSixRoundTrip(usec: nat)
    ensures ParseFixedSix(FixedSix(usec)) == usec
  {
    var s := FixedSix(usec);
    var w := NatToString(usec / 1_000_000);
    assert s[..|s| - 7] == w;
    assert s[|s| - 6..] == PadDigits(usec % 1_000_000, 6);
    NatRoundTrip(usec / 1_000_000);
    PadRoundTrip(usec % 1_000_000, 6);
    assert Pow10(6) == 1_000_000;
  }
}
