/** The integer Julian Day / Gregorian calendar conversion used by `from_gregorian` and
    `gregorian` (src/time/instant.rs:19-49, 237-243, 263-269): Richards' algorithm from the
    Explanatory Supplement to the Astronomical Almanac, p. 619, with Rust's truncating
    division. A Julian Day Number here names the day whose noon it counts. */
module Calendar {
  import opened Numerics

  // The coefficients of the algorithm (`gregorian_coefficients`).
  const Y: int := 4716
  const J: int := 1401
  const M: int := 2
  const N: int := 12
  const R: int := 4
  const P: int := 1461
  const V: int := 3
  const U: int := 5
  const S: int := 153
  const T: int := 2
  const W: int := 2
  const A: int := 184
  const B: int := 274_277
  const C: int := -38

  datatype Date = Date(year: int, month: int, day: int)

  /** The proleptic Gregorian leap-year rule. */
  predicate IsLeapYear(year: int)
  {
    year % 4 == 0 && (year % 100 != 0 || year % 400 == 0)
  }

  function DaysInMonth(year: int, month: int): int
    requires 1 <= month <= 12
  {
    if month == 2 then (if IsLeapYear(year) then 29 else 28)
    else if month == 4 || month == 6 || month == 9 || month == 11 then 30
    else 31
  }

  /** A date of the proleptic Gregorian calendar. */
  predicate ValidDate(d: Date)
  {
    1 <= d.month <= 12 && 1 <= d.day <= DaysInMonth(d.year, d.month)
  }

  /** The Julian Day Number of the given date (src/time/instant.rs:263-269). Month and day are not
      validated: out-of-range fields are folded into the count as the formula has it. */
  function JulianDayNumber(year: int, month: int, day: int): int
  {
    var h := month - M;
    var g := year + Y - TDiv(N - h, N);
    var f := TRem(h - 1 + N, N);
    var e := TDiv(P * g, R) + day - 1 - J;
    var jd := e + TDiv(S * f + T, U);
    jd - TDiv(3 * TDiv(g + A, 100), 4) - C
  }

  /** The date whose Julian Day Number is `jd` (src/time/instant.rs:237-243); from day 0 on its
      month and day are within calendar ranges. */
  function DateOfJulianDay(jd: int): (d: Date)
    ensures jd >= 0 ==> 1 <= d.month <= 12 && 1 <= d.day <= 31
  {
    DateOfDayCount(jd + J + TDiv(TDiv(4 * jd + B, 146097) * 3, 4) + C)
  }

  /** Second stage of the decoding: the count `f` of days since the start of the cycle,
      split into the March-based year and the day within it. */
  function DateOfDayCount(f: int): (d: Date)
    ensures f >= 0 ==> 1 <= d.month <= 12 && 1 <= d.day <= 31
  {
    var e := R * f + V;
    DateOfYearDay(TDiv(e, P), TDiv(TRem(e, P), R))
  }

  /** Last stage of the decoding: month and day from the day `g` of the March-based year `y`. */
  function DateOfYearDay(y: int, g: int): (d: Date)
    ensures 0 <= g <= 365 ==> 1 <= d.month <= 12 && 1 <= d.day <= 31
  {
    var h := U * g + W;
    var day := TDiv(TRem(h, S), U) + 1;
    var month := TRem(TDiv(h, S) + M, N) + 1;
    var year := y - Y + TDiv(N + M - month, N);
    Date(year, month, day)
  }

  // ---------------------------------------------------------------------------
  // Decoding the day of a year that starts on March 1

  /** Length of month `f` of a year that starts in March (`f == 0` is March, `f == 11` February,
      counted with its leap day). */
  function MarchMonthLength(f: int): int
    requires 0 <= f < 12
  {
    if f == 11 then 29
    else if f == 1 || f == 3 || f == 6 || f == 8 then 30
    else 31
  }

  /** `(153 f + 2) / 5` is the first day of month `f` within the March-based year, and the
      decoding `h = 5 dy + 2` recovers both the month and the day of the month. */
  lemma MonthOfDay(f: int, dd: int)
    requires 0 <= f < 12 && 0 <= dd < MarchMonthLength(f)
    ensures var dy := (S * f + T) / U + dd;
            var h := U * dy + W;
            && 0 <= dy <= 365
            && (dy == 365 ==> f == 11 && dd == 28)
            && h / S == f && (h % S) / U == dd
  {
  }

  /** The Julian Day Number of day `dy` (0 is March 1) of the March-based year `g`
      (0 is the year that starts in March of -4716). */
  function DayNumber(g: int, dy: int): int
  {
    365 * g + g / 4 + dy - (3 * ((g + A) / 100)) / 4 - 1363
  }

  /** The decoder's century count: the day number, scaled by 4 and shifted by `B`, is
      `146097 c + delta` with `c` the encoder's century count and `delta` within one
      400-year cycle. */
  lemma CenturySplit(g: int, dy: int)
    requires g >= 0 && 0 <= dy <= 365
    requires dy == 365 ==> g % 4 == 3 && ((g + A) % 100 == 99 ==> ((g + A) / 100) % 4 == 0)
    ensures var c := (g + A) / 100;
            var jd := 365 * g + g / 4 + dy - (3 * c) / 4 - 1363;
            var delta := 4 * jd + B - 146097 * c;
            0 <= delta <= 146097 && (delta == 146097 ==> c % 4 == 0)
  {
    var c := (g + A) / 100;
    var s := (g + A) % 100;
    var p := s / 4;
    var r := s % 4;
    DivMod(g, 4, 25 * c + p - 46, r);
    var k := (3 * c) / 4;
    var t := (3 * c) % 4;
    if dy == 365 && s == 99 {
      DivMod(3 * c, 4, 3 * (c / 4), 0);
    }
    var jd := 365 * g + g / 4 + dy - k - 1363;
    CenturyDelta(s, r, p, dy, t, 4 * jd + B - 146097 * c);
  }

  /** The arithmetic core of `CenturySplit`, with every quotient and remainder named. */
  lemma CenturyDelta(s: int, r: int, p: int, dy: int, t: int, delta: int)
    requires 0 <= s < 100 && 0 <= r < 4 && s == 4 * p + r && 0 <= dy <= 365 && 0 <= t < 4
    requires dy == 365 ==> r == 3 && (s == 99 ==> t == 0)
    requires delta == 1461 * s - r + 4 * dy + t + 1
    ensures 0 <= delta <= 146097 && (delta == 146097 ==> s == 99 && dy == 365)
  {
  }

  /** A count within one cycle beyond the `c`-th leaves the correction `3 c / 4` unchanged. */
  lemma CenturyQuotient(c: int, delta: int)
    requires c >= 0 && 0 <= delta <= 146097 && (delta == 146097 ==> c % 4 == 0)
    ensures TDiv(TDiv(146097 * c + delta, 146097) * 3, 4) == (3 * c) / 4
  {
    if delta < 146097 {
      DivMod(146097 * c + delta, 146097, c, delta);
    } else {
      var k := c / 4;
      DivMod(146097 * c + delta, 146097, c + 1, 0);
      DivMod(3 * (c + 1), 4, 3 * k, 3);
      DivMod(3 * c, 4, 3 * k, 0);
    }
  }

  /** The century correction of the decoder cancels the encoder's. The decoder's century count
      may be one higher than the encoder's, on the last day of a 400-year cycle, but the
      correction derived from it is the same. */
  lemma CenturyCorrectionCancels(g: int, dy: int)
    requires g >= 0 && 0 <= dy <= 365
    requires dy == 365 ==> g % 4 == 3 && ((g + A) % 100 == 99 ==> ((g + A) / 100) % 4 == 0)
    ensures var jd := DayNumber(g, dy);
            jd + J + TDiv(TDiv(4 * jd + B, 146097) * 3, 4) + C == 365 * g + g / 4 + dy
  {
    var c := (g + A) / 100;
    var jd := 365 * g + g / 4 + dy - (3 * c) / 4 - 1363;
    CenturySplit(g, dy);
    CenturyQuotient(c, 4 * jd + B - 146097 * c);
  }

  /** With the century correction undone, the day count splits back into the March-based
      year and the day within it. */
  lemma YearAndDayOfYear(g: int, dy: int)
    requires g >= 0 && 0 <= dy <= 365
    requires dy == 365 ==> g % 4 == 3
    ensures DateOfDayCount(365 * g + g / 4 + dy) == DateOfYearDay(g, dy)
  {
    var q, r := g / 4, g % 4;
    var e := 4 * (365 * g + q + dy) + 3;
    assert e == 1461 * g + (4 * dy + 3 - r);
    DivMod(e, 1461, g, 4 * dy + 3 - r);
    DivMod(4 * dy + 3 - r, 4, dy, 3 - r);
    assert TDiv(e, P) == g && TDiv(TRem(e, P), R) == dy;
  }

  /** Decoding the Julian Day Number built from March-based year `g` and day-of-year `dy`. */
  lemma DecodeParts(g: int, dy: int)
    requires g >= 0 && 0 <= dy <= 365
    requires dy == 365 ==> g % 4 == 3 && ((g + A) % 100 == 99 ==> ((g + A) / 100) % 4 == 0)
    ensures DateOfJulianDay(DayNumber(g, dy)) == DateOfYearDay(g, dy)
  {
    CenturyCorrectionCancels(g, dy);
    YearAndDayOfYear(g, dy);
  }

  /** The March-based year of a date: years are counted from the one that starts in March of
      -4716, and January and February belong to the year before. */
  function MarchYear(d: Date): int
  {
    d.year + Y - (if d.month <= 2 then 1 else 0)
  }

  /** The day of the March-based year of a date, 0 being March 1. */
  function MarchDay(d: Date): int
  {
    (S * ((d.month + 9) % 12) + T) / U + d.day - 1
  }

  /** Encoding a date of a year from -4715 on, in terms of its March-based year and day of year. */
  lemma EncodeParts(d: Date)
    requires 1 <= d.month <= 12 && d.year >= -4715
    ensures JulianDayNumber(d.year, d.month, d.day) == DayNumber(MarchYear(d), MarchDay(d))
  {
    var g := MarchYear(d);
    var h := d.month - M;
    assert TDiv(N - h, N) == (if d.month <= 2 then 1 else 0);
    assert TRem(h - 1 + N, N) == (d.month + 9) % 12;
    DivMod(P * g, R, 365 * g + g / 4, g % 4);
    assert TDiv(P * g, R) == 365 * g + g / 4;
    assert TDiv(3 * TDiv(g + A, 100), 4) == (3 * ((g + A) / 100)) / 4;
  }

  /** The last decoding stage recovers month, day and year from the March-based year and day. */
  lemma YearDayDecodes(d: Date)
    requires ValidDate(d) && d.year >= -4715
    ensures DateOfYearDay(MarchYear(d), MarchDay(d)) == d
  {
    var y, dy := MarchYear(d), MarchDay(d);
    MarchMonthOf(d.year, d.month);
    assert d.day - 1 < MarchMonthLength((d.month + 9) % 12);
    YearDayFields(y, d.month, d.day - 1);
    assert dy == (S * ((d.month + 9) % 12) + T) / U + (d.day - 1);
    assert y - Y + (if d.month <= 2 then 1 else 0) == d.year;
  }

  /** Day `dd` of month `month`, counted in the March-based year `y`, decodes to that month and
      day, in the calendar year that the month falls in. */
  lemma YearDayFields(y: int, month: int, dd: int)
    requires 1 <= month <= 12 && 0 <= dd < MarchMonthLength((month + 9) % 12)
    ensures DateOfYearDay(y, (S * ((month + 9) % 12) + T) / U + dd)
         == Date(y - Y + (if month <= 2 then 1 else 0), month, dd + 1)
  {
    var f := (month + 9) % 12;
    MarchDayDecodes(f, dd);
    MonthFromMarch(month);
  }

  /** The decoder's truncating divisions recover month `f` and day `dd` of the March-based year. */
  lemma MarchDayDecodes(f: int, dd: int)
    requires 0 <= f < 12 && 0 <= dd < MarchMonthLength(f)
    ensures var h := U * ((S * f + T) / U + dd) + W;
            TDiv(TRem(h, S), U) == dd && TDiv(h, S) == f
  {
    MonthOfDay(f, dd);
  }

  /** Month `month` is month `(month + 9) % 12` of the March-based year, and no longer there. */
  lemma MarchMonthOf(year: int, month: int)
    requires 1 <= month <= 12
    ensures 0 <= (month + 9) % 12 < 12
    ensures DaysInMonth(year, month) <= MarchMonthLength((month + 9) % 12)
  {
  }

  /** The decoder's month and year correction undo the shift to a March-based year. */
  lemma MonthFromMarch(month: int)
    requires 1 <= month <= 12
    ensures TRem((month + 9) % 12 + M, N) + 1 == month
    ensures TDiv(N + M - month, N) == (if month <= 2 then 1 else 0)
  {
  }

  /** The day of the March-based year of a valid date is in range, and day 365 (a February 29)
      meets the leap conditions the decoder relies on. */
  lemma DayOfYearRange(d: Date)
    requires ValidDate(d) && d.year >= -4715
    ensures var g := MarchYear(d);
            var dy := MarchDay(d);
            && g >= 0 && 0 <= dy <= 365
            && (dy == 365 ==> g % 4 == 3 && ((g + A) % 100 == 99 ==> ((g + A) / 100) % 4 == 0))
  {
    var f := (d.month + 9) % 12;
    assert d.day - 1 < MarchMonthLength(f);
    MonthOfDay(f, d.day - 1);
    if MarchDay(d) == 365 {
      assert d.month == 2 && d.day == 29 && IsLeapYear(d.year);
      LeapDayCentury(d.year);
    }
  }

  /** Decoding the day number of a valid date gives the date back, for every year from -4715 on
      (below that the truncating divisions of the formula no longer agree with floor division). */
  lemma DateRoundTrip(d: Date)
    requires ValidDate(d) && d.year >= -4715
    ensures DateOfJulianDay(JulianDayNumber(d.year, d.month, d.day)) == d
  {
    EncodeParts(d);
    DayOfYearRange(d);
    DecodeParts(MarchYear(d), MarchDay(d));
    YearDayDecodes(d);
  }

  /** February 29 exists only in years whose March-based index is 3 modulo 4, and in a century
      year only when the century count is a multiple of 4. */
  lemma LeapDayCentury(year: int)
    requires IsLeapYear(year)
    ensures var g := year + Y - 1;
            g % 4 == 3 && ((g + A) % 100 == 99 ==> ((g + A) / 100) % 4 == 0)
  {
    var g := year + Y - 1;
    var q := year / 4;
    assert year == 4 * q;
    DivMod(g, 4, q + 1178, 3);
    if (g + A) % 100 == 99 {
      var c := year / 100;
      DivMod(year, 100, c, year % 100);
      DivMod(g + A, 100, c + 48, year % 100 + 99);
      assert year % 100 == 0;
      var p := year / 400;
      assert year == 400 * p;
      DivMod(g + A, 100, 4 * p + 48, 99);
      DivMod((g + A) / 100, 4, p + 12, 0);
    }
  }

  /** Below year -4715 the round trip fails: January 1 of -4716 decodes to "day -26 of February -4715". */
  lemma DateRoundTripFailsBefore4715BC(year: int, month: int, day: int)
    requires year == -4716 && month == 1 && day == 1
    ensures JulianDayNumber(year, month, day) == -1422
    ensures DateOfJulianDay(JulianDayNumber(year, month, day)) == Date(-4715, 2, -26)
  {
    assert TDiv(N - (month - M), N) == 1;
    assert TRem(month - M - 1 + N, N) == 10;
    assert TDiv(P * -1, R) == -365;
    assert TDiv(S * 10 + T, U) == 306;
    assert TDiv(3 * TDiv(-1 + A, 100), 4) == 0;
    DecodesBefore4715BC(JulianDayNumber(year, month, day));
  }

  lemma DecodesBefore4715BC(jd: int)
    requires jd == -1422
    ensures DateOfJulianDay(jd) == Date(-4715, 2, -26)
  {
    var f := jd + J + TDiv(TDiv(4 * jd + B, 146097) * 3, 4) + C;
    assert TDiv(4 * jd + B, 146097) == 1;
    assert f == -59;
    DayCountBefore4715BC(f);
  }

  lemma DayCountBefore4715BC(f: int)
    requires f == -59
    ensures DateOfDayCount(f) == Date(-4715, 2, -26)
  {
    var e := R * f + V;
    assert e == -233;
    var y := TDiv(e, P);
    var g := TDiv(TRem(e, P), R);
    assert y == 0 && g == -58;
    YearDayBefore4715BC(y, g);
  }

  lemma YearDayBefore4715BC(y: int, g: int)
    requires y == 0 && g == -58
    ensures DateOfYearDay(y, g) == Date(-4715, 2, -26)
  {
    var h := U * g + W;
    assert h == -288;
    assert TDiv(TRem(h, S), U) == -27;
    var month := TRem(TDiv(h, S) + M, N) + 1;
    assert month == 2;
    assert TDiv(N + M - month, N) == 1;
  }
}
