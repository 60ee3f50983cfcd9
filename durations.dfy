/** A signed span of time counted in microseconds (src/duration.rs, src/time/duration.rs).
    Float arguments are taken as exact reals and cast to `i64` the way Rust's `as` does:
    truncated toward zero and saturated at the ends of the range. */
module Durations {
  import opened Numerics
  import opened TimeUnits
  import opened Decimal

  datatype Duration = Duration(usec: Int64)

  // ---------------------------------------------------------------------------
  // Constructors and accessors

  function New(usec: Int64): (d: Duration)
    ensures AsMicroseconds(d) == usec && AsSeconds(d) * 1_000_000.0 == usec as real
  {
    Duration(usec)
  }

  function FromMicroseconds(usec: Int64): (d: Duration)
    ensures AsMicroseconds(d) == usec && AsSeconds(d) * 1_000_000.0 == usec as real
  {
    Duration(usec)
  }

  function AsMicroseconds(d: Duration): (usec: Int64)
    ensures Duration(usec) == d
  {
    d.usec
  }

  function FromSeconds(seconds: real): (d: Duration)
    ensures CastTo(seconds * 1_000_000.0, d.usec)
  {
    Duration(AsI64(seconds * 1_000_000.0))
  }

  function FromMilliseconds(milliseconds: real): (d: Duration)
    ensures CastTo(milliseconds * 1_000.0, d.usec)
  {
    Duration(AsI64(milliseconds * 1_000.0))
  }

  function FromMinutes(minutes: real): (d: Duration)
    ensures CastTo(minutes * 60_000_000.0, d.usec)
  {
    Duration(AsI64(minutes * 60_000_000.0))
  }

  function FromHours(hours: real): (d: Duration)
    ensures CastTo(hours * 3_600_000_000.0, d.usec)
  {
    Duration(AsI64(hours * 3_600_000_000.0))
  }

  function FromDays(days: real): (d: Duration)
    ensures CastTo(days * 86_400_000_000.0, d.usec)
  {
    Duration(AsI64(days * 86_400_000_000.0))
  }

  function AsSeconds(d: Duration): (x: real)
    ensures x * 1_000_000.0 == d.usec as real && FromSeconds(x) == d
  {
    d.usec as real / 1_000_000.0
  }

  function AsMinutes(d: Duration): (x: real)
    ensures x * 60_000_000.0 == d.usec as real && FromMinutes(x) == d
  {
    d.usec as real / 60_000_000.0
  }

  function AsHours(d: Duration): (x: real)
    ensures x * 3_600_000_000.0 == d.usec as real && FromHours(x) == d
  {
    d.usec as real / 3_600_000_000.0
  }

  function AsDays(d: Duration): (x: real)
    ensures x * 86_400_000_000.0 == d.usec as real && FromDays(x) == d
  {
    d.usec as real / 86_400_000_000.0
  }

  /** The microsecond count given to `new` or `from_microseconds` is stored unchanged and is
      what `as_microseconds` returns. */
  lemma MicrosecondsRoundTrip(usec: Int64, d: Duration)
    ensures AsMicroseconds(New(usec)) == usec && AsMicroseconds(FromMicroseconds(usec)) == usec
    ensures New(AsMicroseconds(d)) == d && FromMicroseconds(AsMicroseconds(d)) == d
  {
  }

  /** A float constructor keeps the whole number of microseconds in its argument, dropping the
      fraction toward zero (when the count fits in an `i64`). */
  lemma ConstructorTruncates(x: real, unit: int, d: Duration)
    requires unit in {MILLISECOND, SECOND, MINUTE, HOUR, DAY}
    requires d == Duration(AsI64(x * unit as real))
    requires InI64(Trunc(x * unit as real))
    ensures x >= 0.0 ==> 0 <= d.usec && d.usec as real <= x * unit as real < d.usec as real + 1.0
    ensures x <= 0.0 ==> d.usec <= 0 && d.usec as real - 1.0 < x * unit as real <= d.usec as real
  {
  }

  /** Reading a duration in a unit and building it back from that reading gives the same duration:
      each accessor divides by exactly the factor its constructor multiplies by. */
  lemma UnitRoundTrip(d: Duration)
    ensures FromSeconds(AsSeconds(d)) == d
    ensures FromMinutes(AsMinutes(d)) == d
    ensures FromHours(AsHours(d)) == d
    ensures FromDays(AsDays(d)) == d
  {
    ScaledIntegerTruncates(d.usec, SECOND);
    ScaledIntegerTruncates(d.usec, MINUTE);
    ScaledIntegerTruncates(d.usec, HOUR);
    ScaledIntegerTruncates(d.usec, DAY);
  }

  /** A whole number of units is that many unit factors of microseconds. */
  lemma WholeUnits(n: int, unit: int)
    requires unit > 0 && InI64(n * unit)
    ensures AsI64(n as real * unit as real) == n * unit
    ensures (n * unit) as real / unit as real == n as real
  {
    assert n as real * unit as real == (n * unit) as real;
  }

  /** The unit factors of the source: one day is 86,400,000,000 microseconds, one second 1,000,000,
      and the constructors agree with each other on one day. */
  lemma UnitFactors()
    ensures FromDays(1.0).usec == 86_400_000_000
    ensures FromSeconds(1.0).usec == 1_000_000
    ensures FromDays(1.0) == FromHours(24.0) == FromMinutes(1440.0) == FromSeconds(86_400.0)
         == FromMilliseconds(86_400_000.0)
  {
    WholeUnits(1, DAY);
    WholeUnits(1, SECOND);
    WholeUnits(24, HOUR);
    WholeUnits(1440, MINUTE);
    WholeUnits(86_400, SECOND);
    WholeUnits(86_400_000, MILLISECOND);
  }

  // ---------------------------------------------------------------------------
  // Arithmetic (src/duration.rs:98-117); an `i64` overflow panics in the source

  function Add(a: Duration, b: Duration): (r: Duration)
    requires InI64(a.usec + b.usec)
    ensures AsSeconds(r) == AsSeconds(a) + AsSeconds(b) && Sub(r, b) == a
  {
    Duration(a.usec + b.usec)
  }

  function Sub(a: Duration, b: Duration): (r: Duration)
    requires InI64(a.usec - b.usec)
    ensures AsSeconds(r) == AsSeconds(a) - AsSeconds(b)
  {
    Duration(a.usec - b.usec)
  }

  /** Subtracting what was added gives the original duration back, and the sum does not depend
      on the order of the operands. */
  lemma AddSubInverse(a: Duration, b: Duration)
    requires InI64(a.usec + b.usec)
    ensures Sub(Add(a, b), b) == a
    ensures Add(a, b) == Add(b, a)
    ensures AsSeconds(Add(a, b)) == AsSeconds(a) + AsSeconds(b)
  {
  }

  /** Adding what was subtracted gives the original duration back. */
  lemma SubAddInverse(a: Duration, b: Duration)
    requires InI64(a.usec - b.usec)
    ensures Add(Sub(a, b), b) == a
  {
  }

  // ---------------------------------------------------------------------------
  // Display (src/duration.rs:119-137, src/time/duration.rs:128-146)

  /** Under one second the count is printed as `<n> usec`; otherwise the total number of whole
      days, hours and minutes is printed for each unit the duration strictly exceeds, then the
      whole duration in seconds with six decimals. */
  function Display(d: Duration): (s: string)
    ensures |s| >= 5 && (s[|s| - 5..] == " usec" <==> d.usec < SECOND)
  {
    if d.usec < SECOND then IntToString(d.usec) + " usec"
    else
      var s := Part(d.usec, DAY, "days") + Part(d.usec, HOUR, "hours") + Part(d.usec, MINUTE, "minutes")
               + FixedSix(d.usec) + " seconds";
      assert s[|s| - 5] == 'c';
      s
  }

  /** One `<count> <unit> ` part of the display, present only above one unit. */
  function Part(usec: nat, unit: nat, name: string): string
    requires unit > 0
  {
    if usec > unit then NatToString(usec / unit) + " " + name + " " else ""
  }

  /** Every duration under one second, negative ones included, prints as its microsecond count
      followed by ` usec`, and the count reads back exactly. */
  lemma DisplaySmall(d: Duration)
    requires d.usec < SECOND
    ensures var s := Display(d);
            && |s| > 5 && s[|s| - 5..] == " usec"
            && IsIntText(s[..|s| - 5]) && ParseInt(s[..|s| - 5]) == d.usec
  {
    var s := Display(d);
    assert s[..|s| - 5] == IntToString(d.usec);
    IntRoundTrip(d.usec);
  }

  /** From one second on, the text ends in ` seconds` preceded by a figure that reads back as the
      whole duration: the seconds are a total, not what is left after the larger units. */
  lemma DisplaySecondsTotal(d: Duration)
    requires d.usec >= SECOND
    ensures var s := Display(d);
            var f := FixedSix(d.usec);
            var k := |s| - 8 - |f|;
            && 0 <= k && s[|s| - 8..] == " seconds" && s[k..|s| - 8] == f
            && (k == 0 || s[k - 1] == ' ')
            && ParseFixedSix(f) == d.usec
  {
    var s := Display(d);
    var f := FixedSix(d.usec);
    var k := |s| - 8 - |f|;
    assert s[k..|s| - 8] == f;
    assert s[|s| - 8..] == " seconds";
    FixedSixRoundTrip(d.usec);
  }

  /** A character that is neither a digit, a point nor a space occurs in a part exactly when the
      part is shown and the character is in the unit's name. */
  lemma PartLetter(usec: nat, unit: nat, name: string, c: char)
    requires unit > 0 && !IsDigit(c) && c != '.' && c != ' '
    ensures c !in FixedSix(usec)
    ensures c in Part(usec, unit, name) <==> usec > unit && c in name
  {
    var f := FixedSix(usec);
    assert forall i :: 0 <= i < |f| - 7 ==> f[..|f| - 7][i] == f[i];
    assert forall i :: |f| - 6 <= i < |f| ==> f[|f| - 6..][i - (|f| - 6)] == f[i];
    if usec > unit {
      var n := NatToString(usec / unit);
      assert Part(usec, unit, name) == n + " " + name + " ";
      assert c !in n;
    }
  }

  /** From one second on, the days part appears exactly when the duration is strictly longer
      than one day (`y` occurs in no other part). */
  lemma DisplayDaysIff(d: Duration)
    requires d.usec >= SECOND
    ensures 'y' in Display(d) <==> d.usec > DAY
  {
    PartLetter(d.usec, DAY, "days", 'y');
    PartLetter(d.usec, HOUR, "hours", 'y');
    PartLetter(d.usec, MINUTE, "minutes", 'y');
  }

  /** From one second on, the hours part appears exactly when the duration is strictly longer
      than one hour (`h` occurs in no other part). */
  lemma DisplayHoursIff(d: Duration)
    requires d.usec >= SECOND
    ensures 'h' in Display(d) <==> d.usec > HOUR
  {
    PartLetter(d.usec, DAY, "days", 'h');
    PartLetter(d.usec, HOUR, "hours", 'h');
    PartLetter(d.usec, MINUTE, "minutes", 'h');
  }

  /** From one second on, the minutes part appears exactly when the duration is strictly longer
      than one minute (`m` occurs in no other part). */
  lemma DisplayMinutesIff(d: Duration)
    requires d.usec >= SECOND
    ensures 'm' in Display(d) <==> d.usec > MINUTE
  {
    PartLetter(d.usec, DAY, "days", 'm');
    PartLetter(d.usec, HOUR, "hours", 'm');
    PartLetter(d.usec, MINUTE, "minutes", 'm');
  }

  /** Half a second and minus two seconds print as microsecond counts. */
  lemma DisplayHalfSecond()
    ensures Display(FromSeconds(0.5)) == "500000 usec"
  {
    var d := FromSeconds(0.5);
    assert d.usec == 500_000;
    DisplayOfSmall(d, "500000");
  }

  lemma DisplayMinusTwoSeconds()
    ensures Display(FromSeconds(-2.0)) == "-2000000 usec"
  {
    var d := FromSeconds(-2.0);
    WholeUnits(-2, SECOND);
    assert d.usec == -2_000_000;
    assert NatToString(2_000) == "2000";
    assert NatToString(2_000_000) == "2000000";
    DisplayOfSmall(d, "-2000000");
  }

  /** The display of a duration under one second whose count is written `digits`. */
  lemma DisplayOfSmall(d: Duration, digits: string)
    requires d.usec < SECOND && IntToString(d.usec) == digits
    ensures Display(d) == digits + " usec"
  {
  }

  /** The seconds figure of a whole number `secs` of seconds. */
  lemma FixedSixOfWhole(usec: nat, secs: nat, digits: string)
    requires usec == secs * 1_000_000 && NatToString(secs) == digits
    ensures FixedSix(usec) == digits + ".000000"
  {
    DivMod(usec, 1_000_000, secs, 0);
    assert PadDigits(0, 6) == "000000";
  }

  lemma Numeral24(n: nat)
    requires n == 24
    ensures NatToString(n) == "24"
  {
  }

  lemma Numeral1440(n: nat)
    requires n == 1440
    ensures NatToString(n) == "1440"
  {
    assert NatToString(144) == "144";
  }

  lemma Numeral86400(n: nat)
    requires n == 86400
    ensures NatToString(n) == "86400"
  {
    assert NatToString(864) == "864";
    assert NatToString(8640) == "8640";
  }

  lemma Numeral25(n: nat)
    requires n == 25
    ensures NatToString(n) == "25"
  {
  }

  lemma Numeral1501(n: nat)
    requires n == 1501
    ensures NatToString(n) == "1501"
  {
    assert NatToString(150) == "150";
  }

  lemma Numeral90061(n: nat)
    requires n == 90061
    ensures NatToString(n) == "90061"
  {
    assert NatToString(900) == "900";
    assert NatToString(9006) == "9006";
  }

  /** Exactly one day is not strictly above one day: no days part is printed. */
  lemma DisplayOneDay()
    ensures Display(FromDays(1.0)) == "24 hours 1440 minutes 86400.000000 seconds"
  {
    WholeUnits(1, DAY);
    DisplayOneDayAt(DAY);
  }

  lemma DisplayOneDayAt(u: Int64)
    requires u == DAY
    ensures Display(Duration(u)) == "24 hours 1440 minutes 86400.000000 seconds"
  {
    assert Part(u, DAY, "days") == "";
    HoursOfOneDay(u);
    MinutesOfOneDay(u);
    SecondsOfOneDay(u);
    var a := "" + "24 hours " + "1440 minutes ";
    assert a == "24 hours 1440 minutes ";
    var b := a + "86400.000000";
    assert b == "24 hours 1440 minutes 86400.000000";
    assert b + " seconds" == "24 hours 1440 minutes 86400.000000 seconds";
  }

  lemma HoursOfOneDay(u: Int64)
    requires u == DAY
    ensures Part(u, HOUR, "hours") == "24 hours "
  {
    DivMod(u, HOUR, 24, 0);
    Numeral24(u / HOUR);
  }

  lemma MinutesOfOneDay(u: Int64)
    requires u == DAY
    ensures Part(u, MINUTE, "minutes") == "1440 minutes "
  {
    DivMod(u, MINUTE, 1440, 0);
    Numeral1440(u / MINUTE);
  }

  lemma SecondsOfOneDay(u: Int64)
    requires u == DAY
    ensures FixedSix(u) == "86400.000000"
  {
    Numeral86400(86400);
    FixedSixOfWhole(u, 86400, "86400");
  }

  /** One day, one hour, one minute and one second: every part is a total in its unit, not a
      remainder. */
  lemma DisplayTotals()
    ensures Display(FromSeconds(90_061.0)) == "1 days 25 hours 1501 minutes 90061.000000 seconds"
  {
    WholeUnits(90_061, SECOND);
    DisplayTotalsAt(90_061 * SECOND);
  }

  lemma DisplayTotalsAt(u: Int64)
    requires u == 90_061 * SECOND
    ensures Display(Duration(u)) == "1 days 25 hours 1501 minutes 90061.000000 seconds"
  {
    DaysOfTotals(u);
    HoursOfTotals(u);
    MinutesOfTotals(u);
    SecondsOfTotals(u);
    var a := "1 days " + "25 hours ";
    assert a == "1 days 25 hours ";
    var b := a + "1501 minutes ";
    assert b == "1 days 25 hours 1501 minutes ";
    var c := b + "90061.000000";
    assert c == "1 days 25 hours 1501 minutes 90061.000000";
    assert c + " seconds" == "1 days 25 hours 1501 minutes 90061.000000 seconds";
  }

  lemma DaysOfTotals(u: Int64)
    requires u == 90_061 * SECOND
    ensures Part(u, DAY, "days") == "1 days "
  {
    DivMod(u, DAY, 1, u - DAY);
    assert NatToString(u / DAY) == "1";
  }

  lemma HoursOfTotals(u: Int64)
    requires u == 90_061 * SECOND
    ensures Part(u, HOUR, "hours") == "25 hours "
  {
    DivMod(u, HOUR, 25, u - 25 * HOUR);
    Numeral25(u / HOUR);
  }

  lemma MinutesOfTotals(u: Int64)
    requires u == 90_061 * SECOND
    ensures Part(u, MINUTE, "minutes") == "1501 minutes "
  {
    DivMod(u, MINUTE, 1501, u - 1501 * MINUTE);
    Numeral1501(u / MINUTE);
  }

  lemma SecondsOfTotals(u: Int64)
    requires u == 90_061 * SECOND
    ensures FixedSix(u) == "90061.000000"
  {
    Numeral90061(90061);
    FixedSixOfWhole(u, 90061, "90061");
  }
}
