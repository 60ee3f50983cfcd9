/** Integer and floating-point conventions of the Rust source, made explicit:
    64-bit signed integers, division and remainder that truncate toward zero,
    and the saturating `f64 as i64` cast. */
module Numerics {

  const I64_MIN: int := -0x8000_0000_0000_0000
  const I64_MAX: int := 0x7FFF_FFFF_FFFF_FFFF
  const I32_MIN: int := -0x8000_0000
  const I32_MAX: int := 0x7FFF_FFFF

  /** A value of Rust's `i64`. */
  type Int64 = x: int | I64_MIN <= x <= I64_MAX

  /** True when `x` fits in an `i64`; an arithmetic result outside this range panics in a debug build. */
  predicate InI64(x: int) {
    I64_MIN <= x <= I64_MAX
  }

  predicate InI32(x: int) {
    I32_MIN <= x <= I32_MAX
  }

  function Abs(x: int): (r: nat)
    ensures r == x || r == -x
  {
    if x < 0 then -x else x
  }

  /** Rust's `/` on integers by a positive divisor (the only kind the source divides by): the
      quotient rounded toward zero. */
  function TDiv(a: int, b: int): int
    requires b > 0
  {
    if a >= 0 then a / b else -((-a) / b)
  }

  /** Quotient and remainder are determined by the division equation. */
  lemma DivMod(a: int, b: int, q: int, r: int)
    requires b > 0 && a == b * q + r && 0 <= r < b
    ensures a / b == q && a % b == r
  {
    var x := q - a / b;
    assert b * x == a % b - r;
    if x > 0 {
      MulAtLeast(b, x);
    } else if x < 0 {
      MulAtLeast(b, -x);
    }
  }

  lemma MulAtLeast(b: int, x: int)
    requires b > 0 && x > 0
    ensures b * x >= b
  {
  }

  /** Rust's `%` on integers by a positive divisor: the remainder takes the sign of the dividend. */
  function TRem(a: int, b: int): int
    requires b > 0
  {
    if a >= 0 then a % b else -((-a) % b)
  }

  /** Truncating quotient and remainder satisfy the division equation, the remainder is smaller
      than the divisor in magnitude and never has the opposite sign of the dividend, and they
      agree with Euclidean division exactly when the dividend is non-negative or divisible. */
  lemma TruncatedDivision(a: int, b: int)
    requires b > 0
    ensures a == b * TDiv(a, b) + TRem(a, b)
    ensures -b < TRem(a, b) < b && (a >= 0 ==> TRem(a, b) >= 0) && (a <= 0 ==> TRem(a, b) <= 0)
    ensures TDiv(a, b) == a / b <==> a >= 0 || a % b == 0
  {
    if a >= 0 {
      assert a == b * (a / b) + a % b;
    } else {
      var q, r := (-a) / b, (-a) % b;
      assert -a == b * q + r;
      assert b * TDiv(a, b) == -(b * q);
      if r == 0 {
        DivMod(a, b, -q, 0);
      } else {
        DivMod(a, b, -q - 1, b - r);
      }
    }
  }

  /** Truncation of a real toward zero, as performed by Rust's `as` casts from `f64`. */
  function Trunc(x: real): (n: int)
    ensures x >= 0.0 ==> n as real <= x < n as real + 1.0
    ensures x <= 0.0 ==> n as real - 1.0 < x <= n as real
  {
    if x >= 0.0 then x.Floor else -((-x).Floor)
  }

  /** Rust's `f64 as i64`: truncate toward zero, saturating at the ends of the `i64` range. */
  function AsI64(x: real): (n: Int64)
    ensures InI64(Trunc(x)) ==> n == Trunc(x)
    ensures Trunc(x) > I64_MAX ==> n == I64_MAX
    ensures Trunc(x) < I64_MIN ==> n == I64_MIN
  {
    var t := Trunc(x);
    if t > I64_MAX then I64_MAX else if t < I64_MIN then I64_MIN else t
  }

  /** `n` is what Rust's `x as i64` gives: `x` with its fraction dropped toward zero when that
      fits in an `i64`, and the end of the range it overflows otherwise. */
  predicate CastTo(x: real, n: int)
  {
    && (InI64(Trunc(x)) ==> && (x >= 0.0 ==> 0 <= n && n as real <= x < n as real + 1.0)
                            && (x <= 0.0 ==> n <= 0 && n as real - 1.0 < x <= n as real))
    && (Trunc(x) > I64_MAX ==> n == I64_MAX)
    && (Trunc(x) < I64_MIN ==> n == I64_MIN)
  }

  /** An integer count of units survives the round trip through a real scaled down and back up. */
  lemma ScaledIntegerTruncates(n: int, unit: int)
    requires unit > 0
    ensures Trunc((n as real / unit as real) * unit as real) == n
  {
    assert (n as real / unit as real) * unit as real == n as real;
  }
}

/** The time units of the crate, as counts of microseconds. */
module TimeUnits {
  const MILLISECOND: int := 1_000
  const SECOND: int := 1_000_000
  const MINUTE: int := 60 * SECOND
  const HOUR: int := 60 * MINUTE
  const DAY: int := 24 * HOUR
}
