/** A point in time (src/time/instant.rs): `raw` counts microseconds since 1970-01-01 00:00:00 UTC
    including every leap second since. Its UTC reading is `raw` minus the leap offset in force.
    Float outputs are exact reals; float inputs are truncated to whole microseconds as Rust's
    `as i64` does. */
module Instants {
  import opened Numerics
  import opened TimeUnits
  import opened LeapSeconds
  import opened Calendar

  datatype Instant = Instant(raw: Int64)

  /** 2000-01-01 12:00:00 TT, which is 32.184 s ahead of TAI. */
  const J2000: Instant := Instant(946_728_064_184_000)
  /** 1970-01-01 00:00:00 UTC. */
  const UNIX_EPOCH: Instant := Instant(0)
  /** 1980-01-06 00:00:00 UTC. */
  const GPS_EPOCH: Instant := Instant(315_964_819_000_000)
  /** 1858-11-17 00:00:00 UTC. */
  const MJD_EPOCH: Instant := Instant(-3_506_716_800_000_000)

  /** The factor `from_gps_week_and_sow` multiplies the week number by: 24 weeks of 604,800 s. */
  const GPS_WEEK_FACTOR: int := 14_515_200_000_000

  /** Julian Day Number of 1970-01-01. */
  const UNIX_EPOCH_JDN: int := 2_440_588

  function New(raw: Int64): Instant
  {
    Instant(raw)
  }

  /** The UTC microsecond count of a raw instant: the leap seconds removed. */
  function UtcMicros(raw: int): int
  {
    raw - LeapOffset(raw)
  }

  // ---------------------------------------------------------------------------
  // GPS week and second of week (src/time/instant.rs:124-128)

  /** The GPS epoch moved by `week` times 24 weeks (the source's factor) and by the second of
      week truncated to whole microseconds, with no leap correction. */
  function FromGpsWeekAndSow(week: int, sow: real): (t: Instant)
    requires InI32(week)
    requires InI64(week * GPS_WEEK_FACTOR)
    requires InI64(week * GPS_WEEK_FACTOR + AsI64(sow * 1_000_000.0))
    requires InI64(week * GPS_WEEK_FACTOR + AsI64(sow * 1_000_000.0) + GPS_EPOCH.raw)
    ensures t.raw - GPS_EPOCH.raw == week * (24 * 7 * DAY) + AsI64(sow * 1_000_000.0)
  {
    Instant(week * GPS_WEEK_FACTOR + AsI64(sow * 1_000_000.0) + GPS_EPOCH.raw)
  }

  /** Week 0 is the GPS epoch plus the second of week, truncated to whole microseconds, with no
      leap-second correction. */
  lemma GpsWeekZero(sow: real)
    requires 0.0 <= sow * 1_000_000.0 < 1_000_000_000_000_000.0
    ensures FromGpsWeekAndSow(0, sow).raw == GPS_EPOCH.raw + Trunc(sow * 1_000_000.0)
    ensures FromGpsWeekAndSow(0, 0.0) == GPS_EPOCH
  {
  }

  /** Consecutive week numbers are 24 weeks apart, not one: the factor is 24 times the length of
      a week. */
  lemma GpsWeekStride(week: int, sow: real)
    requires InI32(week) && InI32(week + 1)
    requires InI64((week + 1) * GPS_WEEK_FACTOR) && InI64(week * GPS_WEEK_FACTOR)
    requires InI64((week + 1) * GPS_WEEK_FACTOR + AsI64(sow * 1_000_000.0) + GPS_EPOCH.raw)
    requires InI64(week * GPS_WEEK_FACTOR + AsI64(sow * 1_000_000.0) + GPS_EPOCH.raw)
    requires InI64((week + 1) * GPS_WEEK_FACTOR + AsI64(sow * 1_000_000.0))
    requires InI64(week * GPS_WEEK_FACTOR + AsI64(sow * 1_000_000.0))
    ensures FromGpsWeekAndSow(week + 1, sow).raw - FromGpsWeekAndSow(week, sow).raw == 24 * 7 * DAY
    ensures FromGpsWeekAndSow(week + 1, sow).raw - FromGpsWeekAndSow(week, sow).raw != 7 * DAY
  {
  }

  // ---------------------------------------------------------------------------
  // Unix time (src/time/instant.rs:141-164)

  /** Unix seconds to an instant: take the whole microseconds, add the leap offset in force
      there, then add whatever further offset that sum has crossed. */
  method FromUnixtime(unixtime: real) returns (t: Instant)
    requires InI64(AsI64(unixtime * 1_000_000.0) + LeapOffset(AsI64(unixtime * 1_000_000.0)))
    requires InI64(Corrected(AsI64(unixtime * 1_000_000.0)))
    ensures t.raw == Corrected(AsI64(unixtime * 1_000_000.0))
    ensures UtcMicros(t.raw) == AsI64(unixtime * 1_000_000.0)
    ensures AsUnixtime(t) == AsI64(unixtime * 1_000_000.0) as real / 1_000_000.0
    ensures InI64(Trunc(unixtime * 1_000_000.0)) && Trunc(unixtime * 1_000_000.0) as real == unixtime * 1_000_000.0
            ==> AsUnixtime(t) == unixtime
  {
    var micros := AsI64(unixtime * 1_000_000.0);
    var raw := micros + UNIX_EPOCH.raw;
    var ls := MicroLeapSeconds(raw);
    raw := raw + ls;
    var ls2 := MicroLeapSeconds(raw);
    raw := raw + (ls2 - ls);
    assert ls == LeapOffset(micros) && ls2 == LeapOffset(micros + LeapOffset(micros));
    assert raw == Corrected(micros);
    t := Instant(raw);
    CorrectedRoundTrip(micros);
  }

  /** Seconds since 1970-01-01 00:00:00 UTC, leap seconds not counted: the UTC count in seconds,
      which is the raw count itself up to the oldest threshold and 37 s less past the newest. */
  function AsUnixtime(t: Instant): (s: real)
    ensures s * 1_000_000.0 == UtcMicros(t.raw) as real
    ensures t.raw <= FIRST_THRESHOLD ==> s * 1_000_000.0 == t.raw as real
    ensures t.raw > NEWEST_THRESHOLD ==> s * 1_000_000.0 == (t.raw - 37 * SECOND) as real
  {
    NoOffsetUpToFirst(t.raw);
    (t.raw - UNIX_EPOCH.raw - LeapOffset(t.raw)) as real * 0.000_001
  }

  /** Unix time read back from any whole microsecond count is that count: the correction that
      `from_unixtime` applies is exactly undone. */
  lemma UnixtimeRoundTrip(u: int)
    requires InI64(Corrected(u))
    ensures AsUnixtime(Instant(Corrected(u))) == u as real / 1_000_000.0
  {
    CorrectedRoundTrip(u);
  }

  // ---------------------------------------------------------------------------
  // Modified Julian Date and Julian Date (src/time/instant.rs:190-201)

  /** `raw - MJD_EPOCH.raw` does not overflow an `i64`. */
  predicate MjdInRange(t: Instant)
  {
    t.raw - MJD_EPOCH.raw <= I64_MAX
  }

  /** Days since 1858-11-17 00:00:00 UTC, each of 86,400 s: the Unix epoch is MJD 40587. */
  function AsMjd(t: Instant): (mjd: real)
    requires MjdInRange(t)
    ensures mjd == UtcMicros(t.raw) as real / DAY as real + 40_587.0
  {
    (t.raw - MJD_EPOCH.raw - LeapOffset(t.raw)) as real / 86_400_000_000.0
  }

  /** Days since the Julian noon epoch: the Unix epoch is JD 2440587.5. */
  function AsJd(t: Instant): (jd: real)
    requires MjdInRange(t)
    ensures jd == UtcMicros(t.raw) as real / DAY as real + 2_440_587.5
  {
    AsMjd(t) + 2_400_000.5
  }

  /** The Unix epoch is MJD 40587 and JD 2440587.5; both count UTC days of 86,400 s. */
  lemma DayCountsOfUtc(t: Instant)
    requires MjdInRange(t)
    ensures AsMjd(t) == UtcMicros(t.raw) as real / DAY as real + 40_587.0
    ensures AsJd(t) == UtcMicros(t.raw) as real / DAY as real + 2_440_587.5
    ensures AsJd(t) - AsMjd(t) == 2_400_000.5
  {
  }

  /** The floor of a whole number of microseconds counted in days is the floor division. */
  lemma FloorOfDays(x: int)
    ensures (x as real / DAY as real).Floor == x / DAY
  {
    var q := x / DAY;
    var r := x % DAY;
    assert x as real / DAY as real == q as real + r as real / DAY as real;
    assert 0.0 <= r as real / DAY as real < 1.0;
  }

  /** `floor(as_jd)`, which `gregorian` starts from, in integer terms: the Julian Day Number of the
      UTC noon at or before the instant. */
  lemma JdFloor(t: Instant, u: int)
    requires MjdInRange(t) && u == UtcMicros(t.raw)
    ensures AsJd(t).Floor == (u + DAY / 2) / DAY + 2_440_587
  {
    var x := u + DAY / 2 + 2_440_587 * DAY;
    DayCountsOfUtc(t);
    assert AsJd(t) == x as real / DAY as real;
    FloorOfDays(x);
  }

  // ---------------------------------------------------------------------------
  // Gregorian date and time of an instant (src/time/instant.rs:205-253)

  /** A civil reading, as `gregorian` returns it and `from_gregorian` takes it. */
  datatype Civil = Civil(year: int, month: int, day: int, hour: int, minute: int, second: real)

  /** The local state `gregorian` updates: the clock fields and the day adjustment `jdadd`. */
  datatype Clock = Clock(hour: int, minute: int, second: real, jdadd: int)

  /** Hour, minute and second of a microsecond-of-day count, with `jdadd` 1 before noon (the
      Julian day starts at noon). */
  function ClockOf(tod: int): Clock
  {
    var hour := TDiv(tod, HOUR);
    var minute := TDiv(tod - hour * HOUR, MINUTE);
    var second := (tod - hour * HOUR - minute * MINUTE) as real * 0.000_001;
    Clock(hour, minute, second, if hour < 12 then 1 else 0)
  }

  /** The change applied inside the second after a threshold: show 23:59 and one second more,
      turning 0 into 60, and count one day less. */
  function LeapAdjusted(c: Clock): Clock
  {
    Clock(23, 59, if c.second == 0.0 then 60.0 else c.second + 1.0, c.jdadd - 1)
  }

  /** The reading `gregorian` returns, with the time of day taken by Rust's truncating `%`. Inside
      the second after a threshold the clock shows 23:59; from the Unix epoch on, every other
      reading has its clock fields within their ranges. */
  function CivilOf(t: Instant): (r: Civil)
    requires MjdInRange(t)
    ensures InLeapSecond(t.raw) ==> r.hour == 23 && r.minute == 59
    ensures UtcMicros(t.raw) >= 0 && !InLeapSecond(t.raw) ==>
              0 <= r.hour <= 23 && 0 <= r.minute <= 59 && 0.0 <= r.second < 60.0
  {
    ClockOfCountRange(UtcMicros(t.raw));
    var c0 := ClockOf(TRem(UtcMicros(t.raw), DAY));
    var c := if InLeapSecond(t.raw) then LeapAdjusted(c0) else c0;
    var d := DateOfJulianDay(AsJd(t).Floor + c.jdadd);
    Civil(d.year, d.month, d.day, c.hour, c.minute, c.second)
  }

  /** The fields of the reading: the (possibly adjusted) clock and the date of the adjusted day. */
  lemma CivilFields(t: Instant)
    requires MjdInRange(t)
    ensures var c0 := ClockOf(TRem(UtcMicros(t.raw), DAY));
            var c := if InLeapSecond(t.raw) then LeapAdjusted(c0) else c0;
            var r := CivilOf(t);
            && r.hour == c.hour && r.minute == c.minute && r.second == c.second
            && Date(r.year, r.month, r.day) == DateOfJulianDay(AsJd(t).Floor + c.jdadd)
  {
  }

  /** `gregorian`: the clock fields from the UTC microsecond of the day, then the scan of the table
      for a threshold whose following second contains the instant, then the date. */
  method Gregorian(t: Instant) returns (c: Civil)
    requires MjdInRange(t)
    ensures c == CivilOf(t)
  {
    var ls := MicroLeapSeconds(t.raw);
    var utcUsecOfDay := TRem(t.raw - ls, DAY);
    var hour, minute, second, jdadd := ClockFieldsOf(utcUsecOfDay);
    hour, minute, second, jdadd := ScanLeapSeconds(t.raw, hour, minute, second, jdadd);
    var jd := AsJd(t).Floor + jdadd;
    var date := DateOfJulianDay(jd);
    c := Civil(date.year, date.month, date.day, hour, minute, second);
  }

  /** The first part of `gregorian`: hour, minute and second of the microsecond of the day, and
      the day adjustment `jdadd`, set to 1 before noon. */
  method ClockFieldsOf(utcUsecOfDay: int) returns (hour: int, minute: int, second: real, jdadd: int)
    ensures Clock(hour, minute, second, jdadd) == ClockOf(utcUsecOfDay)
  {
    jdadd := 0;
    hour := TDiv(utcUsecOfDay, HOUR);
    if hour < 12 {
      jdadd := jdadd + 1;
    }
    minute := TDiv(utcUsecOfDay - hour * HOUR, MINUTE);
    second := (utcUsecOfDay - hour * HOUR - minute * MINUTE) as real * 0.000_001;
  }

  /** The loop of `gregorian` over the table: inside the second that follows a threshold the clock
      shows 23:59 and one second more, and the day adjustment drops by one; at most one entry
      matches. */
  method ScanLeapSeconds(raw: int, hour0: int, minute0: int, second0: real, jdadd0: int)
    returns (hour: int, minute: int, second: real, jdadd: int)
    ensures var c0 := Clock(hour0, minute0, second0, jdadd0);
            Clock(hour, minute, second, jdadd) == if InLeapSecond(raw) then LeapAdjusted(c0) else c0
  {
    ghost var c0 := Clock(hour0, minute0, second0, jdadd0);
    hour, minute, second, jdadd := hour0, minute0, second0, jdadd0;
    var i := 0;
    while i < |LEAP_SECOND_TABLE|
      invariant 0 <= i <= |LEAP_SECOND_TABLE|
      invariant Clock(hour, minute, second, jdadd)
                == if WindowHitBefore(raw, i) then LeapAdjusted(c0) else c0
    {
      var (threshold, _) := LEAP_SECOND_TABLE[i];
      if raw >= threshold && raw - threshold < 1_000_000 {
        WindowsDisjoint(raw, i);
        hour := 23;
        minute := 59;
        if second == 0.0 {
          second := 60.0;
        } else {
          second := second + 1.0;
        }
        jdadd := jdadd - 1;
      }
      i := i + 1;
    }
  }

  /** The reading with the time of day taken by floor division, which is what the truncating
      `%` was evidently meant to compute; it differs from `CivilOf` only before 1970. */
  function CivilOfFloor(t: Instant): Civil
    requires MjdInRange(t)
  {
    var c0 := ClockOf(UtcMicros(t.raw) % DAY);
    var c := if InLeapSecond(t.raw) then LeapAdjusted(c0) else c0;
    var d := DateOfJulianDay(AsJd(t).Floor + c.jdadd);
    Civil(d.year, d.month, d.day, c.hour, c.minute, c.second)
  }

  /** From the Unix epoch on the two readings agree. */
  lemma CivilAgreesFromEpoch(t: Instant)
    requires MjdInRange(t) && UtcMicros(t.raw) >= 0
    ensures CivilOf(t) == CivilOfFloor(t)
  {
  }

  /** Before 1970 the truncating `%` gives a negative time of day: one hour after the MJD epoch,
      1858-11-17 01:00:00, reads as hour -23 of that day. */
  lemma PreEpochHourNegative(t: Instant)
    requires t.raw == MJD_EPOCH.raw + HOUR
    ensures MjdInRange(t)
    ensures CivilOf(t).hour == -23
    ensures CivilOfFloor(t) == Civil(1858, 11, 17, 1, 0, 0.0)
  {
    LeapOffsetRange(t.raw);
    NoLeapSecondBeforeFirst(t.raw);
    var u := UtcMicros(t.raw);
    CivilFields(t);
    TruncatedHour(u);
    var jdn := 2_400_001;
    MjdEpochDay(jdn);
    CivilAtUtc(t, jdn, 1, 0, 0);
  }

  /** Day 2,400,001 is 1858-11-17. */
  lemma MjdEpochDay(jdn: int)
    requires jdn == 2_400_001
    ensures DateOfJulianDay(jdn) == Date(1858, 11, 17)
  {
    var d := Date(1858, 11, 17);
    EncodeParts(d);
    JulianDayOf(d, jdn);
  }

  /** The truncating remainder of one hour after the MJD epoch is minus 23 hours. */
  lemma TruncatedHour(u: int)
    requires u == -40_587 * DAY + HOUR
    ensures ClockOf(TRem(u, DAY)).hour == -23
  {
    DivMod(-u, DAY, 40_586, 23 * HOUR);
    ClockBeforeMidnight(TRem(u, DAY));
  }

  lemma ClockBeforeMidnight(tod: int)
    requires tod == -23 * HOUR
    ensures ClockOf(tod).hour == -23
  {
    DivMod(-tod, HOUR, 23, 0);
  }

  /** The Julian Day Number of a valid date decodes back to that date. */
  lemma JulianDayOf(d: Date, jdn: int)
    requires ValidDate(d) && d.year >= -4715 && jdn == JulianDayNumber(d.year, d.month, d.day)
    ensures DateOfJulianDay(jdn) == d
  {
    DateRoundTrip(d);
  }

  /** Whole days and the rest of a microsecond count. */
  lemma DaysAndRest(u: int, days: int, rest: int)
    requires 0 <= rest < DAY && u == days * DAY + rest
    ensures u / DAY == days && u % DAY == rest
  {
  }

  /** The Julian day counted from noon: a count `tod` microseconds into day `days` (from the Unix
      epoch) is `days` or `days + 1` noons past, depending on whether `tod` is before noon. */
  lemma NoonSplit(u: int, days: int, tod: int)
    requires 0 <= tod < DAY && u == days * DAY + tod
    ensures u / DAY == days && u % DAY == tod
    ensures (u + DAY / 2) / DAY == days + (if tod < DAY / 2 then 0 else 1)
  {
    DaysAndRest(u, days, tod);
    if tod < DAY / 2 {
      DaysAndRest(u + DAY / 2, days, tod + DAY / 2);
    } else {
      DaysAndRest(u + DAY / 2, days + 1, tod - DAY / 2);
    }
  }

  /** A time of day split into hour, minute and second. */
  lemma ClockOfTimeOfDay(tod: int)
    requires 0 <= tod < DAY
    ensures ClockOf(tod) == Clock(tod / HOUR, (tod % HOUR) / MINUTE, (tod % MINUTE) as real / 1_000_000.0,
                                  if tod < DAY / 2 then 1 else 0)
  {
    var h, rh := tod / HOUR, tod % HOUR;
    var m, sec := rh / MINUTE, rh % MINUTE;
    assert tod == HOUR * h + rh && 0 <= rh < HOUR && 0 <= h < 24;
    assert rh == MINUTE * m + sec && 0 <= sec < MINUTE;
    DivMod(tod, MINUTE, 60 * h + m, sec);
    assert TDiv(tod, HOUR) == h && TDiv(tod - h * HOUR, MINUTE) == m;
    assert (tod - h * HOUR - m * MINUTE) as real * 0.000_001 == sec as real / 1_000_000.0;
    assert DAY / 2 == 12 * HOUR;
    assert h < 12 ==> tod < 12 * HOUR;
    var c := Clock(h, m, sec as real / 1_000_000.0, if h < 12 then 1 else 0);
    assert ClockOf(tod) == c;
  }

  /** The clock fields of a time of day built from hour, minute and microseconds are those. */
  lemma ClockOfFields(hour: int, minute: int, micros: int)
    requires 0 <= hour < 24 && 0 <= minute < 60 && 0 <= micros < 60 * SECOND
    ensures var tod := hour * HOUR + minute * MINUTE + micros;
            && 0 <= tod < DAY && (tod < DAY / 2 <==> hour < 12)
            && ClockOf(tod) == Clock(hour, minute, micros as real / 1_000_000.0, if hour < 12 then 1 else 0)
  {
    var tod := hour * HOUR + minute * MINUTE + micros;
    DivMod(tod, HOUR, hour, minute * MINUTE + micros);
    DivMod(minute * MINUTE + micros, MINUTE, minute, micros);
    DivMod(tod, MINUTE, 60 * hour + minute, micros);
    ClockOfTimeOfDay(tod);
  }

  /** The reading of an instant outside every leap second whose UTC count is `hour`, `minute` and
      `micros` into the day whose Julian Day Number is `jdn`. */
  lemma CivilAtUtc(t: Instant, jdn: int, hour: int, minute: int, micros: int)
    requires MjdInRange(t) && !InLeapSecond(t.raw)
    requires 0 <= hour < 24 && 0 <= minute < 60 && 0 <= micros < 60 * SECOND
    requires UtcMicros(t.raw) == (jdn - UNIX_EPOCH_JDN) * DAY + hour * HOUR + minute * MINUTE + micros
    ensures var d := DateOfJulianDay(jdn);
            CivilOfFloor(t) == Civil(d.year, d.month, d.day, hour, minute, micros as real / 1_000_000.0)
  {
    ClockAtUtc(t, jdn, hour, minute, micros);
  }

  /** The clock and the Julian day `gregorian` derives from such a UTC count. */
  lemma ClockAtUtc(t: Instant, jdn: int, hour: int, minute: int, micros: int)
    requires MjdInRange(t)
    requires 0 <= hour < 24 && 0 <= minute < 60 && 0 <= micros < 60 * SECOND
    requires UtcMicros(t.raw) == (jdn - UNIX_EPOCH_JDN) * DAY + hour * HOUR + minute * MINUTE + micros
    ensures var c := ClockOf(UtcMicros(t.raw) % DAY);
            && c == Clock(hour, minute, micros as real / 1_000_000.0, if hour < 12 then 1 else 0)
            && AsJd(t).Floor + c.jdadd == jdn
  {
    var u := UtcMicros(t.raw);
    var tod := hour * HOUR + minute * MINUTE + micros;
    ClockOfFields(hour, minute, micros);
    NoonSplit(u, jdn - UNIX_EPOCH_JDN, tod);
    JdFloor(t, u);
  }

  // ---------------------------------------------------------------------------
  // The second after a threshold

  /** For every table entry but the oldest, the UTC count at the threshold is a midnight (the
      start of the day after the leap second), and the offset grows by one second there. */
  lemma ThresholdIsMidnight(k: int)
    requires 0 <= k < |LEAP_SECOND_TABLE| - 1
    ensures UtcMicros(LEAP_SECOND_TABLE[k].0) % DAY == 0 && UtcMicros(LEAP_SECOND_TABLE[k].0) > 0
    ensures LeapOffset(LEAP_SECOND_TABLE[k].0) == LEAP_SECOND_TABLE[k + 1].1
    ensures LEAP_SECOND_TABLE[k].1 == LEAP_SECOND_TABLE[k + 1].1 + SECOND
  {
    ThresholdOffset(k);
    MidnightThresholds(k);
  }

  /** At a threshold the older offset still applies, and the newer one is one second more. */
  lemma ThresholdOffset(k: int)
    requires 0 <= k < |LEAP_SECOND_TABLE| - 1
    ensures LeapOffset(LEAP_SECOND_TABLE[k].0) == LEAP_SECOND_TABLE[k + 1].1
    ensures LEAP_SECOND_TABLE[k].1 == LEAP_SECOND_TABLE[k + 1].1 + SECOND
  {
    TableShape();
    GappedPair(LEAP_SECOND_TABLE, 0, k, k + 1);
    LeapOffsetAt(LEAP_SECOND_TABLE[k].0, k + 1);
  }

  /** The thresholds, less the offset before them, are whole days. */
  lemma MidnightThresholds(k: int)
    requires 0 <= k < |LEAP_SECOND_TABLE| - 1
    ensures (LEAP_SECOND_TABLE[k].0 - LEAP_SECOND_TABLE[k + 1].1) % DAY == 0
    ensures LEAP_SECOND_TABLE[k].0 - LEAP_SECOND_TABLE[k + 1].1 > 0
  {
  }

  /** The second after each threshold but the oldest is shown as a leap second, and its UTC counts
      are the midnight `mid` after the leap second (at the threshold itself) or lie in the last
      second before that midnight (strictly inside). */
  lemma LeapSecondWindow(raw: int, k: int)
    requires 0 <= k < |LEAP_SECOND_TABLE| - 1
    requires InWindow(LEAP_SECOND_TABLE[k].0, raw)
    ensures InLeapSecond(raw)
    ensures var mid := UtcMicros(LEAP_SECOND_TABLE[k].0);
            && mid > 0 && mid % DAY == 0
            && (raw == LEAP_SECOND_TABLE[k].0 ==> UtcMicros(raw) == mid)
            && (raw != LEAP_SECOND_TABLE[k].0 ==> mid - SECOND < UtcMicros(raw) < mid)
  {
    ThresholdIsMidnight(k);
    InLeapSecondIff(raw, |LEAP_SECOND_TABLE|);
    if raw != LEAP_SECOND_TABLE[k].0 {
      ThresholdOffsetInside(raw, k);
    }
  }

  /** An instant shown as a leap second whose UTC count is the midnight `mid` reads 23:59:60 of
      the day before. */
  lemma ReadingAtMidnight(t: Instant, mid: int)
    requires MjdInRange(t) && InLeapSecond(t.raw)
    requires mid > 0 && mid % DAY == 0 && UtcMicros(t.raw) == mid
    ensures var c := CivilOf(t);
            c.hour == 23 && c.minute == 59 && c.second == 60.0
            && Date(c.year, c.month, c.day) == DateOfJulianDay(mid / DAY + UNIX_EPOCH_JDN - 1)
  {
    JdFloor(t, mid);
    MidnightSplit(mid);
    CivilInLeapSecond(t, mid / DAY + UNIX_EPOCH_JDN - 1);
  }

  /** An instant shown as a leap second whose UTC count lies in the last second before the
      midnight `mid` reads 23:59:60 and a fraction, dated two days before that midnight's. */
  lemma ReadingInLastSecond(t: Instant, mid: int)
    requires MjdInRange(t) && InLeapSecond(t.raw)
    requires mid > 0 && mid % DAY == 0 && mid - SECOND < UtcMicros(t.raw) < mid
    ensures var c := CivilOf(t);
            c.hour == 23 && c.minute == 59 && 60.0 < c.second < 61.0
            && Date(c.year, c.month, c.day) == DateOfJulianDay(mid / DAY + UNIX_EPOCH_JDN - 2)
  {
    var u := UtcMicros(t.raw);
    JdFloor(t, u);
    InsideLastSecond(u, mid);
    LastSecondClock(TRem(u, DAY));
    CivilInLeapSecond(t, mid / DAY + UNIX_EPOCH_JDN - 2);
  }

  /** The oldest threshold is nine seconds past the midnight that starts 1972 and no offset applies
      at it, so the display loop turns its reading 1972-01-01 00:00:09 into 23:59:10 of the day
      before. */
  lemma OldestThresholdReading(t: Instant)
    requires t.raw == FIRST_THRESHOLD
    ensures MjdInRange(t) && InLeapSecond(t.raw)
    ensures CivilOf(t) == Civil(1971, 12, 31, 23, 59, 10.0)
  {
    LeapOffsetRange(t.raw);
    OldestInLeapSecond(t.raw);
    OldestClock(UtcMicros(t.raw));
    JdFloor(t, UtcMicros(t.raw));
    DayOf19711231(2_441_317);
    CivilInLeapSecond(t, 2_441_317);
  }

  lemma OldestInLeapSecond(raw: int)
    requires raw == FIRST_THRESHOLD
    ensures InLeapSecond(raw)
  {
    TableShape();
    InLeapSecondIff(raw, |LEAP_SECOND_TABLE|);
    assert InWindow(LEAP_SECOND_TABLE[27].0, raw);
  }

  /** Nine seconds into day 730 of the Unix epoch, shown as a leap second: 23:59:10, dated by the
      noon before. */
  lemma OldestClock(u: int)
    requires u == 730 * DAY + 9 * SECOND
    ensures (u + DAY / 2) / DAY == 730
    ensures LeapAdjusted(ClockOf(TRem(u, DAY))) == Clock(23, 59, 10.0, 0)
  {
    DivMod(u, DAY, 730, 9 * SECOND);
    DivMod(u + DAY / 2, DAY, 730, DAY / 2 + 9 * SECOND);
    ClockOfFields(0, 0, 9 * SECOND);
  }

  /** Day 2,441,317 is 1971-12-31. */
  lemma DayOf19711231(jdn: int)
    requires jdn == 2_441_317
    ensures DateOfJulianDay(jdn) == Date(1971, 12, 31)
  {
    var d := Date(1971, 12, 31);
    EncodeParts(d);
    JulianDayOf(d, jdn);
  }

  /** The reading of an instant shown as a leap second, given the Julian day it is dated by. */
  lemma CivilInLeapSecond(t: Instant, jd: int)
    requires MjdInRange(t) && InLeapSecond(t.raw)
    requires AsJd(t).Floor + LeapAdjusted(ClockOf(TRem(UtcMicros(t.raw), DAY))).jdadd == jd
    ensures var c := LeapAdjusted(ClockOf(TRem(UtcMicros(t.raw), DAY)));
            var d := DateOfJulianDay(jd);
            CivilOf(t) == Civil(d.year, d.month, d.day, c.hour, c.minute, c.second)
  {
  }

  /** Strictly inside the second after a threshold the offset of that threshold applies, so the UTC
      count lies in the last second before the midnight. */
  lemma ThresholdOffsetInside(raw: int, k: int)
    requires 0 <= k < |LEAP_SECOND_TABLE| - 1
    requires InWindow(LEAP_SECOND_TABLE[k].0, raw) && raw != LEAP_SECOND_TABLE[k].0
    ensures UtcMicros(LEAP_SECOND_TABLE[k].0) - SECOND < UtcMicros(raw) < UtcMicros(LEAP_SECOND_TABLE[k].0)
  {
    TableFacts();
    ThresholdOffset(k);
    if k > 0 {
      GappedPair(LEAP_SECOND_TABLE, 38 * SECOND, k - 1, k);
    }
    LeapOffsetAt(raw, k);
  }

  /** A positive midnight: no time of day, and the noon-based day count is the day count. */
  lemma MidnightSplit(mid: int)
    requires mid > 0 && mid % DAY == 0
    ensures TRem(mid, DAY) == 0 && (mid + DAY / 2) / DAY == mid / DAY
    ensures ClockOf(TRem(mid, DAY)) == Clock(0, 0, 0.0, 1)
  {
    DivMod(mid + DAY / 2, DAY, mid / DAY, DAY / 2);
  }

  /** A count in the last second before a positive midnight. */
  lemma InsideLastSecond(u: int, mid: int)
    requires mid > 0 && mid % DAY == 0 && mid - SECOND < u < mid
    ensures TRem(u, DAY) == DAY - (mid - u)
    ensures (u + DAY / 2) / DAY == mid / DAY
  {
    DivMod(u, DAY, mid / DAY - 1, DAY - (mid - u));
    DivMod(u + DAY / 2, DAY, mid / DAY, DAY / 2 - (mid - u));
  }

  /** The clock in the last second of a day: 23:59:59 and a fraction, after noon. */
  lemma LastSecondClock(tod: int)
    requires DAY - SECOND < tod < DAY
    ensures var c := ClockOf(tod);
            c.hour == 23 && c.minute == 59 && 59.0 < c.second < 60.0 && c.jdadd == 0
  {
    ClockOfTimeOfDay(tod);
    DivMod(tod, HOUR, 23, tod - 23 * HOUR);
    DivMod(tod, MINUTE, 1439, tod - 1439 * MINUTE);
    DivMod(tod % HOUR, MINUTE, 59, tod - 1439 * MINUTE);
  }

  /** Between two thresholds, away from the second after the older one, no leap second is shown. */
  lemma NotInLeapSecond(raw: int, k: int)
    requires 0 <= k < |LEAP_SECOND_TABLE|
    requires LEAP_SECOND_TABLE[k].0 + SECOND <= raw
    requires k == 0 || raw < LEAP_SECOND_TABLE[k - 1].0
    ensures !InLeapSecond(raw)
  {
    TableFacts();
    InLeapSecondIff(raw, |LEAP_SECOND_TABLE|);
    forall j | 0 <= j < |LEAP_SECOND_TABLE|
      ensures !InWindow(LEAP_SECOND_TABLE[j].0, raw)
    {
      if j < k - 1 {
        GappedPair(LEAP_SECOND_TABLE, 0, j, k - 1);
      } else if j > k {
        GappedPair(LEAP_SECOND_TABLE, 0, k, j);
      }
    }
  }

  // ---------------------------------------------------------------------------
  // From a civil reading (src/time/instant.rs:255-289)

  /** The UTC microsecond count `from_gregorian` builds before the leap correction: midnight of
      the Julian Day Number's date (through the MJD epoch), plus the time of day. Month and day
      are not validated. */
  function UtcOfGregorian(year: int, month: int, day: int, hour: int, minute: int, second: real): (u: int)
    ensures u == (JulianDayNumber(year, month, day) - UNIX_EPOCH_JDN) * DAY
                 + hour * HOUR + minute * MINUTE + AsI64(second * 1_000_000.0)
  {
    (JulianDayNumber(year, month, day) - 2_400_001) * DAY + hour * HOUR + minute * MINUTE
      + AsI64(second * 1_000_000.0) + MJD_EPOCH.raw
  }

  /** The arguments are `i32` values and no step of `from_gregorian` overflows an `i64`. */
  predicate GregorianInRange(year: int, month: int, day: int, hour: int, minute: int, second: real)
  {
    var mjd := JulianDayNumber(year, month, day) - 2_400_001;
    var u := UtcOfGregorian(year, month, day, hour, minute, second);
    && InI32(year) && InI32(month) && InI32(day) && InI32(hour) && InI32(minute)
    && InI64(mjd * DAY) && InI64(mjd * DAY + hour * HOUR)
    && InI64(mjd * DAY + hour * HOUR + minute * MINUTE)
    && InI64(mjd * DAY + hour * HOUR + minute * MINUTE + AsI64(second * 1_000_000.0))
    && InI64(u) && InI64(u + LeapOffset(u)) && InI64(u + LeapOffset(u) + LeapOffset(u + LeapOffset(u)))
    && InI64(Corrected(u))
  }

  /** `from_gregorian`: the Julian Day Number of the date, moved back half a day to midnight and
      to the MJD count, then scaled and summed with the time of day, then leap-corrected. */
  method FromGregorian(year: int, month: int, day: int, hour: int, minute: int, second: real)
    returns (t: Instant)
    requires GregorianInRange(year, month, day, hour, minute, second)
    ensures t.raw == Corrected(UtcOfGregorian(year, month, day, hour, minute, second))
    ensures UtcMicros(t.raw) == UtcOfGregorian(year, month, day, hour, minute, second)
  {
    ghost var u := UtcOfGregorian(year, month, day, hour, minute, second);
    var jdn := JulianDayNumber(year, month, day);
    var jd: real := jdn as real - 0.5;
    var mjd: real := jd - 2_400_000.5;
    WholeDayCount(jdn, mjd);
    var raw := AsI64(mjd) * DAY + hour * HOUR + minute * MINUTE + AsI64(second * 1_000_000.0)
               + MJD_EPOCH.raw;
    assert raw == u;
    var ls := MicroLeapSeconds(raw);
    raw := raw + ls;
    var ls2 := MicroLeapSeconds(raw);
    raw := raw + ls2 - ls;
    assert raw == Corrected(u);
    t := Instant(raw);
    CorrectedRoundTrip(u);
  }

  /** The MJD `from_gregorian` computes in floating point is the whole number `jdn - 2400001`,
      which the cast to `i64` keeps. */
  lemma WholeDayCount(jdn: int, mjd: real)
    requires mjd == jdn as real - 0.5 - 2_400_000.5 && InI64((jdn - 2_400_001) * DAY)
    ensures AsI64(mjd) == jdn - 2_400_001
  {
    assert mjd == (jdn - 2_400_001) as real;
    assert Trunc(mjd) == jdn - 2_400_001;
  }

  /** A civil time after the last leap second (2017-01-01 00:00:00 UTC) is built without overflow
      for day numbers up to 10^8, and its instant is its UTC count plus the full 37 seconds. */
  lemma GregorianAfterLastLeapSecond(year: int, month: int, day: int, hour: int, minute: int, second: real)
    requires InI32(year) && InI32(month) && InI32(day)
    requires 0 <= hour < 24 && 0 <= minute < 60 && 0.0 <= second < 60.0
    requires JulianDayNumber(year, month, day) <= 100_000_000
    requires UtcOfGregorian(year, month, day, hour, minute, second) > LEAP_SECOND_TABLE[0].0 - 36 * SECOND
    ensures GregorianInRange(year, month, day, hour, minute, second)
    ensures Corrected(UtcOfGregorian(year, month, day, hour, minute, second))
         == UtcOfGregorian(year, month, day, hour, minute, second) + 37 * SECOND
  {
    var u := UtcOfGregorian(year, month, day, hour, minute, second);
    CorrectedAfterLast(u);
    LeapOffsetRange(u);
    LeapOffsetRange(u + LeapOffset(u));
  }

  /** The reading of an instant from 1970 on that lies past the second after threshold `k` and
      before the next threshold: its UTC count, the raw count less offset `k`, split into the day
      `jdn` and the time of day. */
  lemma ReadingBetweenThresholds(t: Instant, k: int, jdn: int, hour: int, minute: int, micros: int)
    requires 0 <= k < |LEAP_SECOND_TABLE|
    requires LEAP_SECOND_TABLE[k].0 + SECOND <= t.raw && (k == 0 || t.raw < LEAP_SECOND_TABLE[k - 1].0)
    requires MjdInRange(t) && jdn >= UNIX_EPOCH_JDN
    requires 0 <= hour < 24 && 0 <= minute < 60 && 0 <= micros < 60 * SECOND
    requires t.raw - LEAP_SECOND_TABLE[k].1 == (jdn - UNIX_EPOCH_JDN) * DAY + hour * HOUR + minute * MINUTE + micros
    ensures var d := DateOfJulianDay(jdn);
            CivilOf(t) == Civil(d.year, d.month, d.day, hour, minute, micros as real / 1_000_000.0)
  {
    LeapOffsetAt(t.raw, k);
    NotInLeapSecond(t.raw, k);
    UtcOfDayFrom1970(jdn, hour, minute, micros);
    CivilAtUtc(t, jdn, hour, minute, micros);
    CivilAgreesFromEpoch(t);
  }

  /** Counted from the Unix epoch: whole days since 1970-01-01 plus the time of day. */
  lemma UtcOfGregorianFromUnixEpoch(year: int, month: int, day: int, hour: int, minute: int, micros: int)
    requires InI64(micros)
    ensures UtcOfGregorian(year, month, day, hour, minute, micros as real / 1_000_000.0)
         == (JulianDayNumber(year, month, day) - UNIX_EPOCH_JDN) * DAY + hour * HOUR + minute * MINUTE + micros
  {
    ScaledIntegerTruncates(micros, SECOND);
  }

  /** The UTC count of a leap-second threshold: a time whose corrected instant is the threshold
      itself, which is read as a leap second. These are the 27 midnights that follow a threshold,
      and 1972-01-01 00:00:09 UTC, the UTC count of the oldest threshold, whose offset is 0. */
  predicate AtThresholdUtc(u: int)
  {
    exists k :: 0 <= k < |LEAP_SECOND_TABLE| && u == UtcMicros(LEAP_SECOND_TABLE[k].0)
  }

  /** A corrected UTC count is read as a leap second only when it is a threshold's UTC count. */
  lemma CorrectedOutsideLeapSecond(u: int)
    requires !AtThresholdUtc(u)
    ensures !InLeapSecond(Corrected(u))
  {
    var raw := Corrected(u);
    CorrectedRoundTrip(u);
    InLeapSecondIff(raw, |LEAP_SECOND_TABLE|);
    forall k | 0 <= k < |LEAP_SECOND_TABLE|
      ensures !InWindow(LEAP_SECOND_TABLE[k].0, raw)
    {
      CorrectedSkipsLeapSecond(u, k);
      assert raw != LEAP_SECOND_TABLE[k].0;
    }
  }

  /** Reading back a valid civil time built by `from_gregorian` gives it back, when the time of day
      is taken by floor division: for every year from -4715 on, except the midnight that follows a
      leap second (which `from_gregorian` maps onto the threshold, read as 23:59:60). */
  lemma CivilRoundTrip(year: int, month: int, day: int, hour: int, minute: int, micros: int, t: Instant)
    requires ValidDate(Date(year, month, day)) && year >= -4715
    requires 0 <= hour < 24 && 0 <= minute < 60 && 0 <= micros < 60 * SECOND
    requires !AtThresholdUtc(UtcOfGregorian(year, month, day, hour, minute, micros as real / 1_000_000.0))
    requires t.raw == Corrected(UtcOfGregorian(year, month, day, hour, minute, micros as real / 1_000_000.0))
    requires MjdInRange(t)
    ensures CivilOfFloor(t) == Civil(year, month, day, hour, minute, micros as real / 1_000_000.0)
  {
    var jdn := DayNumberOfCivil(year, month, day, hour, minute, micros);
    CivilRoundTripOfCount(Date(year, month, day), hour, minute, micros, jdn,
                          UtcOfGregorian(year, month, day, hour, minute, micros as real / 1_000_000.0), t);
  }

  /** The day number of a valid date, and the UTC count of a civil time on it in terms of that. */
  lemma DayNumberOfCivil(year: int, month: int, day: int, hour: int, minute: int, micros: int)
    returns (jdn: int)
    requires ValidDate(Date(year, month, day)) && year >= -4715 && 0 <= micros < 60 * SECOND
    ensures DateOfJulianDay(jdn) == Date(year, month, day)
    ensures UtcOfGregorian(year, month, day, hour, minute, micros as real / 1_000_000.0)
         == (jdn - UNIX_EPOCH_JDN) * DAY + hour * HOUR + minute * MINUTE + micros
  {
    jdn := JulianDayNumber(year, month, day);
    UtcOfGregorianFromUnixEpoch(year, month, day, hour, minute, micros);
    JulianDayOf(Date(year, month, day), jdn);
  }

  /** `CivilRoundTrip`, with the day number of the date and the UTC count of the civil time
      given as integers. */
  lemma CivilRoundTripOfCount(d: Date, hour: int, minute: int, micros: int, jdn: int, u: int, t: Instant)
    requires DateOfJulianDay(jdn) == d
    requires 0 <= hour < 24 && 0 <= minute < 60 && 0 <= micros < 60 * SECOND
    requires u == (jdn - UNIX_EPOCH_JDN) * DAY + hour * HOUR + minute * MINUTE + micros
    requires !AtThresholdUtc(u) && t.raw == Corrected(u) && MjdInRange(t)
    ensures CivilOfFloor(t) == Civil(d.year, d.month, d.day, hour, minute, micros as real / 1_000_000.0)
  {
    CorrectedReading(t, u, jdn, hour, minute, micros);
  }

  /** The reading of the instant built from a UTC count that is no threshold's UTC count is that count's
      day and time of day. */
  lemma CorrectedReading(t: Instant, u: int, jdn: int, hour: int, minute: int, micros: int)
    requires MjdInRange(t) && t.raw == Corrected(u) && !AtThresholdUtc(u)
    requires 0 <= hour < 24 && 0 <= minute < 60 && 0 <= micros < 60 * SECOND
    requires u == (jdn - UNIX_EPOCH_JDN) * DAY + hour * HOUR + minute * MINUTE + micros
    ensures var d := DateOfJulianDay(jdn);
            CivilOfFloor(t) == Civil(d.year, d.month, d.day, hour, minute, micros as real / 1_000_000.0)
  {
    CorrectedRoundTrip(u);
    CorrectedOutsideLeapSecond(u);
    CivilAtUtc(t, jdn, hour, minute, micros);
  }

  /** `gregorian` as written gives the civil time back from 1970 on. */
  lemma CivilRoundTripFromEpoch(year: int, month: int, day: int, hour: int, minute: int, micros: int,
                                 t: Instant)
    requires ValidDate(Date(year, month, day)) && year >= 1970
    requires 0 <= hour < 24 && 0 <= minute < 60 && 0 <= micros < 60 * SECOND
    requires !AtThresholdUtc(UtcOfGregorian(year, month, day, hour, minute, micros as real / 1_000_000.0))
    requires t.raw == Corrected(UtcOfGregorian(year, month, day, hour, minute, micros as real / 1_000_000.0))
    requires MjdInRange(t)
    ensures CivilOf(t) == Civil(year, month, day, hour, minute, micros as real / 1_000_000.0)
  {
    var u := UtcOfGregorian(year, month, day, hour, minute, micros as real / 1_000_000.0);
    CivilRoundTrip(year, month, day, hour, minute, micros, t);
    UtcFrom1970(year, month, day, hour, minute, micros);
    CorrectedRoundTrip(u);
    CivilAgreesFromEpoch(t);
  }

  /** Civil times from 1970 on have non-negative UTC counts. */
  lemma UtcFrom1970(year: int, month: int, day: int, hour: int, minute: int, micros: int)
    requires ValidDate(Date(year, month, day)) && year >= 1970
    requires 0 <= hour < 24 && 0 <= minute < 60 && 0 <= micros < 60 * SECOND
    ensures UtcOfGregorian(year, month, day, hour, minute, micros as real / 1_000_000.0) >= 0
  {
    UtcOfGregorianFromUnixEpoch(year, month, day, hour, minute, micros);
    JulianDayNumberFrom1970(Date(year, month, day));
    UtcOfDayFrom1970(JulianDayNumber(year, month, day), hour, minute, micros);
  }

  lemma UtcOfDayFrom1970(jdn: int, hour: int, minute: int, micros: int)
    requires jdn >= UNIX_EPOCH_JDN && hour >= 0 && minute >= 0 && micros >= 0
    ensures (jdn - UNIX_EPOCH_JDN) * DAY + hour * HOUR + minute * MINUTE + micros >= 0
  {
  }

  /** Dates from 1970 on have day numbers from the Unix epoch's on. */
  lemma JulianDayNumberFrom1970(d: Date)
    requires ValidDate(d) && d.year >= 1970
    ensures JulianDayNumber(d.year, d.month, d.day) >= UNIX_EPOCH_JDN
  {
    EncodeParts(d);
    MarchDayFrom1970(d);
    DayNumberFrom1970(MarchYear(d), MarchDay(d));
  }

  /** January and February 1970 are days 306 on of March-based year 6685; later dates fall in later
      March-based years. */
  lemma MarchDayFrom1970(d: Date)
    requires ValidDate(d) && d.year >= 1970
    ensures (MarchYear(d) == 6685 && MarchDay(d) >= 306) || (MarchYear(d) >= 6686 && MarchDay(d) >= 0)
  {
    if d.month <= 2 {
      assert (d.month + 9) % 12 == d.month + 9;
    } else {
      DayOfYearRange(d);
    }
  }

  /** Day numbers from January 1970 on (March-based year 6685, from its day 306) are at least the
      Unix epoch's. */
  lemma DayNumberFrom1970(g: int, dy: int)
    requires (g == 6685 && dy >= 306) || (g >= 6686 && dy >= 0)
    ensures DayNumber(g, dy) >= UNIX_EPOCH_JDN
  {
    if g >= 6686 {
      var a := g / 4;
      var c := (g + A) / 100;
      var k := (3 * c) / 4;
      assert 4 * a >= g - 3 && 100 * c <= g + A && 4 * k <= 3 * c;
      assert 400 * (a - k) >= 97 * g - 852;
    }
  }

  /** For a non-negative raw count the clock fields are in range: hour 0-23, minute 0-59 and
      second in [0, 60) outside a leap second. */
  lemma ClockRanges(t: Instant)
    requires MjdInRange(t) && t.raw >= 0 && !InLeapSecond(t.raw)
    ensures var c := CivilOf(t);
            0 <= c.hour <= 23 && 0 <= c.minute <= 59 && 0.0 <= c.second < 60.0
  {
    LeapOffsetRange(t.raw);
    var u := UtcMicros(t.raw);
    assert u >= 0;
    CivilFields(t);
    ClockOfRange(TRem(u, DAY));
  }

  /** The clock of a non-negative UTC count is within range. */
  lemma ClockOfCountRange(u: int)
    ensures u >= 0 ==> var c := ClockOf(TRem(u, DAY));
                       0 <= c.hour <= 23 && 0 <= c.minute <= 59 && 0.0 <= c.second < 60.0
  {
    if u >= 0 {
      ClockOfRange(TRem(u, DAY));
    }
  }

  /** A time of day within one day gives clock fields within their ranges. */
  lemma ClockOfRange(tod: int)
    requires 0 <= tod < DAY
    ensures var c := ClockOf(tod);
            0 <= c.hour <= 23 && 0 <= c.minute <= 59 && 0.0 <= c.second < 60.0
  {
    ClockOfTimeOfDay(tod);
  }
}
