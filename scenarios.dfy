/** The concrete readings the unit tests of src/time/instant.rs assert (lines 331-411): the
    named epochs, the leap second at the end of 2016, differences of civil times and the Julian
    Date of a civil time. */
module Scenarios {
  import opened Numerics
  import opened TimeUnits
  import opened LeapSeconds
  import opened Calendar
  import opened Instants
  import opened InstantOps
  import Durations

  /** The Julian Day Number of a valid date, computed from its March-based year and day. */
  lemma DayOfDate(d: Date, jdn: int)
    requires ValidDate(d) && d.year >= -4715 && jdn == DayNumber(MarchYear(d), MarchDay(d))
    ensures JulianDayNumber(d.year, d.month, d.day) == jdn && DateOfJulianDay(jdn) == d
  {
    EncodeParts(d);
    DateRoundTrip(d);
  }

  // ---------------------------------------------------------------------------
  // Named epochs (test_j2000, test_gps)

  /** J2000 reads 2000-01-01 12:00:32.184: 32 leap seconds are in force, and the epoch itself is
      32.184 s of TT ahead of 12:00 TAI. */
  lemma J2000Reading(t: Instant)
    requires t == J2000
    ensures MjdInRange(t) && CivilOf(t) == Civil(2000, 1, 1, 12, 0, 32.184)
  {
    var jdn := 2_451_545;
    ReadingBetweenThresholds(t, 5, jdn, 12, 0, 32_184_000);
    DayOf20000101(jdn);
  }

  lemma DayOf20000101(jdn: int)
    requires jdn == 2_451_545
    ensures DateOfJulianDay(jdn) == Date(2000, 1, 1)
  {
    DayOfDate(Date(2000, 1, 1), jdn);
  }

  /** The GPS epoch reads 1980-01-06 00:00:00, with 19 leap seconds in force. */
  lemma GpsEpochReading(t: Instant)
    requires t == GPS_EPOCH
    ensures MjdInRange(t) && CivilOf(t) == Civil(1980, 1, 6, 0, 0, 0.0)
  {
    var jdn := 2_444_245;
    ReadingBetweenThresholds(t, 18, jdn, 0, 0, 0);
    DayOf19800106(jdn);
  }

  lemma DayOf19800106(jdn: int)
    requires jdn == 2_444_245
    ensures DateOfJulianDay(jdn) == Date(1980, 1, 6)
  {
    DayOfDate(Date(1980, 1, 6), jdn);
  }

  // ---------------------------------------------------------------------------
  // The leap second at the end of 2016 (test_leapsecond)

  /** The newest threshold itself reads 2016-12-31 23:59:60. */
  lemma ReadingAtNewestThreshold(t: Instant)
    requires t.raw == LEAP_SECOND_TABLE[0].0
    ensures MjdInRange(t) && CivilOf(t) == Civil(2016, 12, 31, 23, 59, 60.0)
  {
    LeapSecondWindow(t.raw, 0);
    var mid := UtcMicros(t.raw);
    ReadingAtMidnight(t, mid);
    MidnightOf2017(mid);
    CivilInLeapSecond(t, mid / DAY + UNIX_EPOCH_JDN - 1);
  }

  /** The UTC count of the newest threshold is the midnight that starts 2017, day 2,457,755. */
  lemma MidnightOf2017(mid: int)
    requires mid == LEAP_SECOND_TABLE[0].0 - 36 * SECOND
    ensures mid / DAY + UNIX_EPOCH_JDN - 1 == 2_457_754
    ensures DateOfJulianDay(mid / DAY + UNIX_EPOCH_JDN - 1) == Date(2016, 12, 31)
  {
    DivMod(mid, DAY, 17_167, 0);
    DayOf20161231(mid / DAY + UNIX_EPOCH_JDN - 1);
  }

  lemma DayOf20161231(jdn: int)
    requires jdn == 2_457_754
    ensures DateOfJulianDay(jdn) == Date(2016, 12, 31)
  {
    DayOfDate(Date(2016, 12, 31), jdn);
  }

  lemma DayOf20170101(jdn: int)
    requires jdn == 2_457_755
    ensures DateOfJulianDay(jdn) == Date(2017, 1, 1)
  {
    DayOfDate(Date(2017, 1, 1), jdn);
  }

  /** One second before the newest threshold reads 2016-12-31 23:59:59. */
  lemma ReadingBeforeNewestThreshold(t: Instant)
    requires t.raw == LEAP_SECOND_TABLE[0].0 - SECOND
    ensures MjdInRange(t) && CivilOf(t) == Civil(2016, 12, 31, 23, 59, 59.0)
  {
    var jdn := 2_457_754;
    ReadingBetweenThresholds(t, 1, jdn, 23, 59, 59 * SECOND);
    DayOf20161231(jdn);
  }

  /** One second after the newest threshold reads 2017-01-01 00:00:00. */
  lemma ReadingAfterNewestThreshold(t: Instant)
    requires t.raw == LEAP_SECOND_TABLE[0].0 + SECOND
    ensures MjdInRange(t) && CivilOf(t) == Civil(2017, 1, 1, 0, 0, 0.0)
  {
    var jdn := 2_457_755;
    ReadingBetweenThresholds(t, 0, jdn, 0, 0, 0);
    DayOf20170101(jdn);
  }

  /** `test_leapsecond`: the newest threshold, then one second less through `-=`, then two seconds
      more through `+=`, each read with `gregorian`. */
  method LeapSecondScenario() returns (g1: Civil, g2: Civil, g3: Civil)
    ensures g1 == Civil(2016, 12, 31, 23, 59, 60.0)
    ensures g2 == Civil(2016, 12, 31, 23, 59, 59.0)
    ensures g3 == Civil(2017, 1, 1, 0, 0, 0.0)
  {
    var one, two := Durations.FromSeconds(1.0), Durations.FromSeconds(2.0);
    Durations.WholeUnits(1, SECOND);
    Durations.WholeUnits(2, SECOND);
    assert one.usec == SECOND && two.usec == 2 * SECOND;
    var cell := new InstantCell(New(LEAP_SECOND_TABLE[0].0));
    var t := cell.value;
    ReadingAtNewestThreshold(t);
    g1 := Gregorian(t);
    cell.SubAssign(one);
    t := cell.value;
    assert t.raw == LEAP_SECOND_TABLE[0].0 - SECOND;
    ReadingBeforeNewestThreshold(t);
    g2 := Gregorian(t);
    cell.AddAssign(two);
    t := cell.value;
    assert t.raw == LEAP_SECOND_TABLE[0].0 + SECOND;
    ReadingAfterNewestThreshold(t);
    g3 := Gregorian(t);
  }

  // ---------------------------------------------------------------------------
  // Differences of civil times (test_ops) and the Julian Date (test_jd)

  /** The instant `from_gregorian` builds for a time of 2024-11-13 (day 2,460,628). */
  lemma Built20241113(hour: int, minute: int, second: real)
    requires 0 <= hour < 24 && 0 <= minute < 60 && 0.0 <= second < 60.0
    ensures GregorianInRange(2024, 11, 13, hour, minute, second)
    ensures Corrected(UtcOfGregorian(2024, 11, 13, hour, minute, second))
         == (2_460_628 - UNIX_EPOCH_JDN) * DAY + hour * HOUR + minute * MINUTE
            + AsI64(second * 1_000_000.0) + 37 * SECOND
  {
    JulianDay20241113();
    GregorianAfterLastLeapSecond(2024, 11, 13, hour, minute, second);
  }

  lemma JulianDay20241113()
    ensures JulianDayNumber(2024, 11, 13) == 2_460_628
  {
    DayOfDate(Date(2024, 11, 13), 2_460_628);
  }

  lemma DayOf20241114(jdn: int)
    requires jdn == 2_460_629
    ensures DateOfJulianDay(jdn) == Date(2024, 11, 14)
  {
    DayOfDate(Date(2024, 11, 14), jdn);
  }

  /** One day after 2024-11-13 08:01:03 reads 2024-11-14 08:01:03. */
  lemma ReadingOneDayLater(t2: Instant, t3: Instant)
    requires t2.raw == (2_460_628 - UNIX_EPOCH_JDN) * DAY + 8 * HOUR + 1 * MINUTE
                       + AsI64(3.0 * 1_000_000.0) + 37 * SECOND
    requires t3.raw == t2.raw + DAY
    ensures MjdInRange(t3) && CivilOf(t3) == Civil(2024, 11, 14, 8, 1, 3.0)
  {
    var jdn := 2_460_629;
    ReadingBetweenThresholds(t3, 0, jdn, 8, 1, 3 * SECOND);
    DayOf20241114(jdn);
  }

  /** `test_ops`, first part: differences of civil times on 2024-11-13 are exact, whichever
      comes first. */
  method DifferencesScenario() returns (dt1: Durations.Duration, dt2: Durations.Duration,
                                        dt3: Durations.Duration)
    ensures dt1.usec == 1_000_000 && dt2.usec == -1_000_000 && dt3.usec == 60_000_000
  {
    Built20241113(8, 0, 3.0);
    Built20241113(8, 0, 4.0);
    Built20241113(8, 0, 2.0);
    Built20241113(8, 1, 3.0);
    var t1 := FromGregorian(2024, 11, 13, 8, 0, 3.0);
    var t2 := FromGregorian(2024, 11, 13, 8, 0, 4.0);
    dt1 := Diff(t2, t1);
    t2 := FromGregorian(2024, 11, 13, 8, 0, 2.0);
    dt2 := Diff(t2, t1);
    t2 := FromGregorian(2024, 11, 13, 8, 1, 3.0);
    dt3 := Diff(t2, t1);
  }

  /** `test_ops`, second part: one day after 2024-11-13 08:01:03 the reading keeps the time of
      day and moves to the next date. */
  method DayLaterScenario() returns (g: Civil)
    ensures g == Civil(2024, 11, 14, 8, 1, 3.0)
  {
    Built20241113(8, 1, 3.0);
    var t2 := FromGregorian(2024, 11, 13, 8, 1, 3.0);
    Durations.UnitFactors();
    var t3 := Add(t2, Durations.FromDays(1.0));
    ReadingOneDayLater(t2, t3);
    g := Gregorian(t3);
  }

  /** `test_jd`: noon of 2024-11-24 is JD 2,460,639.0 and MJD 60,638.5. */
  method JdScenario() returns (jd: real, mjd: real)
    ensures jd == 2_460_639.0 && mjd == 60_638.5
  {
    DayOfDate(Date(2024, 11, 24), 2_460_639);
    GregorianAfterLastLeapSecond(2024, 11, 24, 12, 0, 0.0);
    var t := FromGregorian(2024, 11, 24, 12, 0, 0.0);
    DayCountsOfUtc(t);
    jd := AsJd(t);
    mjd := AsMjd(t);
  }
}
