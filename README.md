# satctrl time kernel and matrix layout in Dafny

This project models two cores of the `satctrl` crate and proves properties of them.

The first core is the microsecond time kernel under `src/time/`:
- an `Instant` counts microseconds since 1970-01-01 00:00:00 UTC and also counts every leap second since then;
- the compiled-in leap-second table and its lookup `microleapseconds`;
- the leap-corrected constructors `from_unixtime` and `from_gregorian`, and their inverses `as_unixtime` and `gregorian`;
- the Richards Julian-Day/Gregorian integer algorithm (Explanatory Supplement to the Astronomical Almanac, p. 619);
- GPS week construction, MJD and JD;
- `Instant`/`Duration` arithmetic, comparison, and in-place `+=`/`-=`;
- the `Duration` constructors, accessors and `Display` text.

The second core is the index and layout half of the fixed-size matrix of `src/basemath/matrix.rs`. Storage is column-major. The model covers the constructors, transpose, row and column extraction, `get`/`set`, `Index`/`IndexMut`, identity and diagonal.

The modules are:
- `Numerics` and `TimeUnits` (`numerics.dfy`): `i64` and `i32` ranges, Rust's truncating `/` and `%`, the saturating `f64 as i64` cast, and the microsecond unit factors.
- `Decimal` (`decimal.dfy`): decimal text as Rust's `{}` and `{:.6}` print it, with parsers that read it back.
- `LeapSeconds` (`leap_seconds.dfy`): the table, the lookup as a function and as the scanning loop, and the one-step leap correction `Corrected(u) = u + L(u + L(u))`.
- `Calendar` (`calendar.dfy`): the day-number encoder and decoder with the source's coefficients.
- `Instants` (`instants.dfy`): `Instant` and its conversions. `gregorian` is a method whose loops and local updates mirror the source.
- `Durations` (`durations.dfy`) and `InstantOps` (`instant_ops.dfy`): value arithmetic, and a class `InstantCell` for the in-place operators.
- `Matrices` (`matrix.dfy`): a class over an `array2<real>` laid out as the Rust `data[col][row]`, specified by a row-by-row `Grid`.
- `Scenarios` (`scenarios.dfy`): the concrete readings the unit tests of `src/time/instant.rs` assert, proved.

Modelling conventions:
- Integers are unbounded. Every `i64` result that the source computes is guarded by a `requires` on its range, because Rust panics on overflow in a debug build.
- `f64` inputs are exact reals, cast the way `as i64` casts: truncated toward zero and saturated.
- `f64` outputs are exact reals.

Behaviour of the code that the model keeps:
- **Lookup comparison.** `microleapseconds` compares strictly (`raw > threshold`), so a value on a threshold gets the older offset (`LeapSeconds.LeapOffsetAt`, `Instants.ThresholdIsMidnight`).
- **Calendar fields.** `from_gregorian` validates neither month nor day. It folds such fields into the day count (`Calendar.JulianDayNumber`).
- **Epoch.** The count starts at the Unix epoch and includes leap seconds.
- **Duration definitions.** The crate has two `Duration` definitions. The model has one, with a `usec` field, because that is the field `instant_ops.rs` uses. Its constructors, accessors and `Display` are those of both files, which agree.

Quirks of the source that are modelled as written:
- **GPS week factor.** It is 24 weeks of microseconds (`Instants.GpsWeekStride`).
- **Wrong date inside a leap second.** Strictly inside the second that follows a threshold, the date shown is one day early (`Instants.ReadingInLastSecond`).
- **Oldest threshold.** The oldest threshold reads 23:59:10 of 1971-12-31 (`Instants.OldestThresholdReading`).
- **Thresholds' UTC counts.** `from_gregorian` maps the UTC count of each threshold onto the threshold itself. These counts are the midnight after each leap second, which then reads as 23:59:60, and 1972-01-01 00:00:09 UTC, which reads as 1971-12-31 23:59:10. `Instants.CivilRoundTrip` excludes them (`Instants.AtThresholdUtc`).
- **`get`/`set` index order.** `get` and `set` address the transposed position of `Index` (`Matrices.Matrix.Get`).

## Model

| member | source | states |
|---|---|---|
| Numerics.TruncatedDivision | src/time/instant.rs:237-243 | Rust's `/` and `%` on a positive divisor satisfy `a == b*q + r`. The remainder is smaller than the divisor and never has the sign opposite to the dividend. They agree with floor division exactly when the dividend is non-negative or divisible. |
| Numerics.AsI64 | src/time/instant.rs:126 | `f64 as i64` truncates toward zero inside the `i64` range and saturates at either end outside it. |
| Decimal.NatRoundTrip | src/time/duration.rs:134 | The decimal numeral of a count reads back as that count. |
| Decimal.IntRoundTrip | src/time/duration.rs:131 | The `{}` text of any integer, negative ones included, is a minus sign and digits that read back as the integer. |
| Decimal.FixedSixRoundTrip | src/time/duration.rs:142 | The `{:.6}` text of a microsecond count in seconds loses no microsecond: it reads back as the count. |
| LeapSeconds.TableShape | src/time/instant.rs:54-83 | The table has 28 entries. The thresholds fall by more than 182 days from each entry to the next. The offsets are whole seconds from 37 s down to 10 s in one-second steps. The oldest threshold is 63,072,009,000,000. |
| LeapSeconds.Lookup | src/time/instant.rs:87-94 | For any table, a nonzero result is the offset of some entry whose threshold lies strictly below `raw`. |
| LeapSeconds.LeapOffset | src/time/instant.rs:87-94 | The offset in force is 0 or between 10 s and 37 s, and it is the full 37 s strictly after the newest threshold. |
| LeapSeconds.MicroLeapSeconds | src/time/instant.rs:87-94 | The newest-first scan returns the lookup's value: the offset of the first entry strictly below `raw`, or 0. |
| LeapSeconds.LookupFirstBelow | src/time/instant.rs:87-94 | For any table, the lookup is 0 when no threshold is below `raw`. Otherwise it is the offset of an entry strictly below `raw` with no earlier entry below it. |
| LeapSeconds.LeapOffsetFirstBelow | src/time/instant.rs:87-94 | The same statement for the compiled-in table. |
| LeapSeconds.LeapOffsetAt | src/time/instant.rs:87-94 | When entry `k` is the first strictly below `raw`, the lookup returns its offset. A `raw` equal to a threshold still gets the older offset. |
| LeapSeconds.TableFacts | src/time/instant.rs:54-94 | The lookup on the table is a step function of the number of thresholds strictly below `raw`: 0, then 10 s plus one second per further threshold. |
| LeapSeconds.LeapOffsetMonotone | src/time/instant.rs:54-94 | The offset never decreases as `raw` grows. |
| LeapSeconds.LeapOffsetRange | src/time/instant.rs:54-94 | The offset is 0 exactly when `raw <= 63_072_009_000_000`. After that it is a whole number of seconds between 10 s and 37 s. |
| LeapSeconds.Corrected | src/time/instant.rs:145-149 | The result is `u` plus the offset in force at `u + L(u)`. It adds between 0 and 37 s, and exactly 37 s to a count strictly after the newest threshold. |
| LeapSeconds.CorrectedStep | src/time/instant.rs:145-149 | The re-check after adding the offset crosses at most one further threshold. The offset in force at the result is the offset that was added in total. |
| LeapSeconds.CorrectedRoundTrip | src/time/instant.rs:141-164 | Subtracting the offset in force at `u + L(u + L(u))` gives back exactly `u`, for every integer `u`. |
| LeapSeconds.CorrectedAfterLast | src/time/instant.rs:282-286 | For a UTC count strictly after 2017-01-01 00:00:00 UTC, the correction adds exactly 37 s. At that midnight itself it adds 36 s. |
| LeapSeconds.CorrectedSkipsLeapSecond | src/time/instant.rs:145-149 | A corrected instant past a threshold lies more than one second past it, so it never lands strictly inside a leap second. |
| LeapSeconds.WindowsDisjoint | src/time/instant.rs:219-230 | The one-second windows of distinct entries never overlap, so the display loop adjusts at most once. |
| LeapSeconds.NoLeapSecondBeforeFirst | src/time/instant.rs:219-220 | Before the oldest threshold no instant is shown as a leap second. |
| LeapSeconds.InLeapSecondIff | src/time/instant.rs:219-220 | The loop has adjusted after `i` entries exactly when `raw` lies in the window of one of them. |
| Instants.FromGpsWeekAndSow | src/time/instant.rs:124-128 | The instant lies `week` × 24 × 7 days plus the truncated microseconds of `sow` after the GPS epoch, with no leap correction. |
| Instants.GpsWeekZero | src/time/instant.rs:124-128 | Week 0 is the GPS epoch plus the truncated microseconds of the second of week, with no leap correction. Week 0, second 0 is `GPS_EPOCH`. |
| Instants.GpsWeekStride | src/time/instant.rs:124-128 | Consecutive week numbers are 24 × 7 days apart, not 7 days. |
| Instants.FromUnixtime | src/time/instant.rs:141-151 | The stored count is `u + L(u + L(u))`, where `u` is the truncated microseconds. Its UTC count is `u`. `as_unixtime` returns `u` in seconds, which is the argument itself when the argument is a whole number of microseconds. |
| Instants.AsUnixtime | src/time/instant.rs:161-164 | The result is the UTC count in seconds. Up to the oldest threshold that is the raw count. Strictly after the newest threshold it is the raw count less 37 s. |
| Instants.UnixtimeRoundTrip | src/time/instant.rs:161-164 | `as_unixtime` of the instant built from any microsecond count `u` is `u / 10^6` exactly. |
| Instants.AsMjd | src/time/instant.rs:190-193 | The UTC count in days of 86,400 s, plus 40587, the MJD of the Unix epoch. |
| Instants.AsJd | src/time/instant.rs:199-201 | The UTC count in days of 86,400 s, plus 2440587.5, the JD of the Unix epoch. |
| Instants.DayCountsOfUtc | src/time/instant.rs:190-201 | MJD and JD count UTC days of 86,400 s. The Unix epoch is MJD 40587 and JD 2440587.5. `as_jd - as_mjd == 2400000.5`. |
| Instants.JdFloor | src/time/instant.rs:235 | `floor(as_jd)` is the Julian Day Number of the UTC noon at or before the instant, in integer arithmetic. |
| Instants.Gregorian | src/time/instant.rs:205-253 | The method with the source's steps (offset lookup, clock fields, scan of the table, date decoding) returns the reading `CivilOf`. |
| Instants.CivilOf | src/time/instant.rs:205-253 | Inside a leap second the clock reads 23:59. From the Unix epoch on, outside a leap second, the hour is 0-23, the minute 0-59 and the second in [0, 60). |
| Instants.ClockFieldsOf | src/time/instant.rs:207-216 | Hour, minute and second come from the microsecond of the day by truncating division, and `jdadd` is 1 before noon. |
| Instants.ScanLeapSeconds | src/time/instant.rs:218-230 | After the loop, the clock is 23:59 with one more second (0 becomes 60) and `jdadd` is one less exactly when the instant is in a leap-second window. Otherwise the clock is unchanged. |
| Instants.ClockOfTimeOfDay | src/time/instant.rs:210-216 | For a time of day within one day, the clock fields are its whole hours, minutes and seconds, and `jdadd` is 1 exactly before noon. |
| Instants.ClockOfFields | src/time/instant.rs:210-216 | The clock fields of `hour·3600 s + minute·60 s + micros` are exactly `hour`, `minute` and `micros / 10^6`. |
| Instants.ClockRanges | src/time/instant.rs:205-216 | For a non-negative raw count outside a leap second, the hour is 0-23, the minute 0-59 and the second in [0, 60). |
| Instants.CivilAtUtc | src/time/instant.rs:205-243 | An instant outside every leap second whose UTC count is `hour:minute:micros` into day `jdn` reads as that day's date and that time (floor-based reading). |
| Instants.ThresholdIsMidnight | src/time/instant.rs:54-94 | For every entry but the oldest, the UTC count at the threshold is a positive midnight. The older offset applies at the threshold, and the newer one is one second more. |
| Instants.LeapSecondWindow | src/time/instant.rs:219-230 | The second after each threshold but the oldest is shown as a leap second. At the threshold the UTC count is the midnight after the leap second. Strictly inside the window it lies in the last second before that midnight. |
| Instants.ReadingAtMidnight | src/time/instant.rs:219-243 | At a threshold the reading is 23:59:60 of the day before the midnight. |
| Instants.ReadingInLastSecond | src/time/instant.rs:219-243 | Strictly inside the window the reading is 23:59:60 and a fraction, dated two days before the midnight, which is one day early. |
| Instants.OldestThresholdReading | src/time/instant.rs:82 | The oldest threshold is shown as a leap second and reads 1971-12-31 23:59:10. |
| Instants.NotInLeapSecond | src/time/instant.rs:219-230 | Between one second after a threshold and the next threshold, nothing is shown as a leap second. |
| Instants.CivilAgreesFromEpoch | src/time/instant.rs:207 | From the Unix epoch on, the reading with the truncating `%` equals the reading with floor division. |
| Instants.PreEpochHourNegative | src/time/instant.rs:207-216 | One hour after the MJD epoch the source reads hour −23. The floor-based reading is 1858-11-17 01:00:00. |
| Instants.FromGregorian | src/time/instant.rs:255-289 | The method with the source's steps stores `Corrected(u)`, where `u` is the UTC count of the civil time. Its UTC count is `u`. |
| Instants.UtcOfGregorian | src/time/instant.rs:264-280 | The UTC count of a civil time is one day per day since the Unix epoch's day number, plus the hours, the minutes and the truncated microseconds of the seconds. |
| Instants.UtcOfGregorianFromUnixEpoch | src/time/instant.rs:264-280 | The UTC count `from_gregorian` builds is whole days since 1970-01-01 plus the time of day. |
| Instants.WholeDayCount | src/time/instant.rs:273-276 | The floating-point MJD `jd - 0.5 - 2400000.5` is the whole number `jdn - 2400001`, and the cast keeps it. |
| Instants.GregorianAfterLastLeapSecond | src/time/instant.rs:276-286 | A civil time strictly after 2017-01-01 00:00:00 UTC, with day number up to 10^8, builds without overflow to its UTC count plus 37 s. |
| Instants.CorrectedOutsideLeapSecond | src/time/instant.rs:282-286 | An instant built from a UTC count that is not a threshold's UTC count (a midnight after a leap second, or 1972-01-01 00:00:09 UTC) is never shown as a leap second. |
| Instants.CorrectedReading | src/time/instant.rs:205-289 | The floor-based reading of the instant built from a UTC count, other than a threshold's UTC count (a midnight after a leap second, or 1972-01-01 00:00:09 UTC), is that count's day and time. |
| Instants.CivilRoundTrip | src/time/instant.rs:205-289 | `from_gregorian` then the floor-based reading gives back every valid civil time from year −4715 on, except the thresholds' UTC counts: the midnights after the leap seconds and 1972-01-01 00:00:09 UTC. |
| Instants.CivilRoundTripFromEpoch | src/time/instant.rs:205-289 | `from_gregorian` then `gregorian` as written gives back every valid civil time from 1970 on, except the thresholds' UTC counts: the midnights after the leap seconds and 1972-01-01 00:00:09 UTC. |
| Instants.ReadingBetweenThresholds | src/time/instant.rs:205-243 | An instant from 1970 on, between one second after threshold `k` and the next threshold, reads as its raw count less offset `k`, split into date and time. |
| Calendar.DateOfJulianDay | src/time/instant.rs:237-243 | From day 0 on, the decoded month is 1-12 and the day 1-31. |
| Calendar.DateOfDayCount | src/time/instant.rs:238-239 | For a non-negative count of days into the cycle, the decoded month is 1-12 and the day 1-31. |
| Calendar.DateOfYearDay | src/time/instant.rs:240-243 | For a day 0-365 of a March-based year, the decoded month is 1-12 and the day 1-31. |
| Calendar.MonthOfDay | src/time/instant.rs:240-243 | `(153 f + 2) / 5` is the first day of month `f` of a March-based year. Decoding `5 dy + 2` recovers the month and the day within it. |
| Calendar.CenturySplit | src/time/instant.rs:237 | The decoder's century count is the encoder's, or one more on the last day of a 400-year cycle. |
| Calendar.CenturyCorrectionCancels | src/time/instant.rs:237 | The decoder's century correction exactly undoes the encoder's. |
| Calendar.YearAndDayOfYear | src/time/instant.rs:238-239 | The day count splits back into the March-based year and the day of that year. |
| Calendar.EncodeParts | src/time/instant.rs:263-269 | The encoder computes `365 g + g/4 + dy` minus the century correction, for the March-based year `g` and day `dy`. |
| Calendar.DecodeParts | src/time/instant.rs:237-243 | Decoding a day number built from March-based year and day gives the date of that year and day. |
| Calendar.YearDayDecodes | src/time/instant.rs:240-243 | The last decoding stage gives back the month, day and year of a valid date. |
| Calendar.DayOfYearRange | src/time/instant.rs:263-269 | A valid date's March-based day is 0-365, and day 365 (a February 29) meets the leap conditions the decoder relies on. |
| Calendar.LeapDayCentury | src/time/instant.rs:265 | The March-based year of a February 29 is 3 modulo 4. In a century year its century count is a multiple of 4. |
| Calendar.DateRoundTrip | src/time/instant.rs:237-269 | Decoding the Julian Day Number of a valid proleptic Gregorian date gives the date back, for every year from −4715 on. |
| Calendar.DateRoundTripFailsBefore4715BC | src/time/instant.rs:237-269 | Below that range the round trip fails: January 1 of −4716 decodes to February −26 of −4715. |
| Durations.New | src/time/duration.rs:17-19 | The duration holds `usec`: `as_microseconds` returns it, and `as_seconds` is it in seconds. |
| Durations.FromMicroseconds | src/time/duration.rs:50-52 | The duration holds `usec`: `as_microseconds` returns it, and `as_seconds` is it in seconds. |
| Durations.AsMicroseconds | src/time/duration.rs:123-125 | The count determines the duration: the duration built from it is `d`. |
| Durations.FromSeconds | src/time/duration.rs:28-30 | The count is `seconds × 10^6` cast as `as i64` casts: truncated toward zero inside the `i64` range, saturated outside it. |
| Durations.FromMilliseconds | src/time/duration.rs:61-63 | The count is `milliseconds × 10^3`, truncated toward zero and saturated. |
| Durations.FromMinutes | src/time/duration.rs:39-41 | The count is `minutes × 6·10^7`, truncated toward zero and saturated. |
| Durations.FromHours | src/time/duration.rs:83-85 | The count is `hours × 3.6·10^9`, truncated toward zero and saturated. |
| Durations.FromDays | src/time/duration.rs:72-74 | The count is `days × 8.64·10^10`, truncated toward zero and saturated. |
| Durations.AsSeconds | src/time/duration.rs:99-101 | The result times 10^6 is the count, and `from_seconds` of it gives the duration back. |
| Durations.AsMinutes | src/time/duration.rs:115-117 | The result times 6·10^7 is the count, and `from_minutes` of it gives the duration back. |
| Durations.AsHours | src/time/duration.rs:107-109 | The result times 3.6·10^9 is the count, and `from_hours` of it gives the duration back. |
| Durations.AsDays | src/time/duration.rs:91-93 | The result times 8.64·10^10 is the count, and `from_days` of it gives the duration back. |
| Durations.MicrosecondsRoundTrip | src/time/duration.rs:17-52 | `new` and `from_microseconds` store the count unchanged, `as_microseconds` returns it, and the reverse composition is the identity. |
| Durations.ConstructorTruncates | src/time/duration.rs:28-85 | Each float constructor keeps the whole microseconds of its argument times its unit factor, truncated toward zero, for either sign. |
| Durations.WholeUnits | src/time/duration.rs:28-85 | A whole number of units is exactly that many unit factors of microseconds. |
| Durations.UnitFactors | src/time/duration.rs:28-85 | `from_days(1.0)` is 86,400,000,000 µs and `from_seconds(1.0)` is 1,000,000 µs. The day, hour, minute, second and millisecond constructors agree on one day. |
| Durations.UnitRoundTrip | src/time/duration.rs:91-117 | Each `as_*` accessor divides by the factor its constructor multiplies by: building back from the reading gives the same duration. |
| Durations.Add | src/duration.rs:98-106 | The seconds of the sum are the sum of the seconds, and subtracting `b` gives `a` back. |
| Durations.Sub | src/duration.rs:109-117 | The seconds of the difference are the difference of the seconds. |
| Durations.AddSubInverse | src/duration.rs:98-117 | `(a + b) - b == a`, addition commutes, and the seconds of a sum are the sum of the seconds. |
| Durations.SubAddInverse | src/duration.rs:98-117 | `(a - b) + b == a`. |
| Durations.Display | src/time/duration.rs:128-146 | The text ends in ` usec` exactly when the duration is under one second. |
| Durations.DisplaySmall | src/time/duration.rs:130-131 | Every duration under one second, negative ones included, prints as its count followed by ` usec`, and the count reads back. |
| Durations.DisplayHalfSecond | src/time/duration.rs:130-131 | `from_seconds(0.5)` prints as `500000 usec`. |
| Durations.DisplayMinusTwoSeconds | src/time/duration.rs:130-131 | `from_seconds(-2.0)` prints as `-2000000 usec`. |
| Durations.DisplaySecondsTotal | src/time/duration.rs:142 | From one second on, the text ends with the whole duration in seconds with six decimals, reading back as the full count, not a remainder. |
| Durations.PartLetter | src/time/duration.rs:133-141 | A letter occurs in a unit's part exactly when the duration exceeds the unit and the letter is in the unit's name. |
| Durations.DisplayDaysIff | src/time/duration.rs:133-135 | The days part appears exactly when the duration is strictly above one day. |
| Durations.DisplayHoursIff | src/time/duration.rs:136-138 | The hours part appears exactly when the duration is strictly above one hour. |
| Durations.DisplayMinutesIff | src/time/duration.rs:139-141 | The minutes part appears exactly when the duration is strictly above one minute. |
| Durations.DisplayOneDay | src/time/duration.rs:128-146 | Exactly one day prints as `24 hours 1440 minutes 86400.000000 seconds`, with no days part. |
| Durations.DisplayTotals | src/time/duration.rs:128-146 | 90,061 s prints as `1 days 25 hours 1501 minutes 90061.000000 seconds`: each part is a total in its unit. |
| InstantOps.Add | src/time/instant_ops.rs:4-42 | The result is later than `t` exactly when `d` is positive, and equal to `t` exactly when `d` is zero. |
| InstantOps.Sub | src/time/instant_ops.rs:44-82 | Adding `d` to the result gives `t` back without overflow, and the result is earlier than `t` exactly when `d` is positive. |
| InstantOps.Diff | src/time/instant_ops.rs:84-122 | The difference is positive exactly when `a` is the later instant, and zero exactly when the two are equal. |
| InstantOps.Eq | src/time/instant_ops.rs:172-176 | Equal raw counts means equal instants. |
| InstantOps.Lt | src/time/instant_ops.rs:180-184 | The `<` that `partial_cmp` gives is the order of the raw counts. |
| InstantOps.Le | src/time/instant_ops.rs:180-184 | `<=` is `<` or equality. |
| InstantOps.PartialCmp | src/time/instant_ops.rs:180-184 | The comparison of two instants is always defined. |
| InstantOps.AddSubInverse | src/time/instant_ops.rs:4-82 | `(t + d) - d == t`. |
| InstantOps.SubAddInverse | src/time/instant_ops.rs:4-82 | `(t - d) + d == t`. |
| InstantOps.DiffOfAdd | src/time/instant_ops.rs:84-122 | `(t + d) - t == d`. |
| InstantOps.AddDiff | src/time/instant_ops.rs:84-122 | `b + (a - b) == a` and `a - (a - b) == b`. |
| InstantOps.AddAssociates | src/time/instant_ops.rs:4-42 | Moving by `x` then by `y` is moving by `x + y`. |
| InstantOps.EqIsIdentity | src/time/instant_ops.rs:172-176 | Two instants are equal exactly when their raw counts are, and the comparison answers `Equal` exactly then. |
| InstantOps.CmpIsRawOrder | src/time/instant_ops.rs:180-184 | `<` and `<=` are those of the raw counts, and swapping the operands turns `Less` into `Greater`. |
| InstantOps.LtTransitive | src/time/instant_ops.rs:180-184 | The order is transitive and total. |
| InstantOps.AddMonotone | src/time/instant_ops.rs:4-42 | `t + d >= t` exactly when `d >= 0`, and `t + d > t` exactly when `d > 0`. |
| InstantOps.AddPreservesOrder | src/time/instant_ops.rs:4-42 | Moving both sides by the same duration keeps their order and their difference. |
| InstantOps.InstantCell.AddAssign | src/time/instant_ops.rs:124-128 | `+=` changes only the receiver, to the receiver plus `d`. The difference from the old value is `d`. |
| InstantOps.InstantCell.SubAssign | src/time/instant_ops.rs:130-134 | `-=` changes only the receiver, to the receiver minus `d`. Adding `d` back gives the old value. |
| Scenarios.J2000Reading | src/time/instant.rs:331-341 | J2000 reads 2000-01-01 12:00:32.184. |
| Scenarios.GpsEpochReading | src/time/instant.rs:395-404 | The GPS epoch reads 1980-01-06 00:00:00. |
| Scenarios.ReadingAtNewestThreshold | src/time/instant.rs:344-352 | The newest threshold reads 2016-12-31 23:59:60. |
| Scenarios.ReadingBeforeNewestThreshold | src/time/instant.rs:353-360 | One second earlier reads 2016-12-31 23:59:59. |
| Scenarios.ReadingAfterNewestThreshold | src/time/instant.rs:362-369 | One second after the threshold reads 2017-01-01 00:00:00. |
| Scenarios.LeapSecondScenario | src/time/instant.rs:343-370 | The test's sequence of `gregorian`, `-=` of 1 s, `gregorian`, `+=` of 2 s, `gregorian` returns the three readings the test asserts. |
| Scenarios.Built20241113 | src/time/instant.rs:374-381 | A time of 2024-11-13 is built as its UTC count plus 37 s, without overflow. |
| Scenarios.DifferencesScenario | src/time/instant.rs:372-383 | 08:00:04 − 08:00:03 is 1,000,000 µs, 08:00:02 − 08:00:03 is −1,000,000 µs, and 08:01:03 − 08:00:03 is 60,000,000 µs. |
| Scenarios.ReadingOneDayLater | src/time/instant.rs:385-392 | One day after 2024-11-13 08:01:03 reads 2024-11-14 08:01:03. |
| Scenarios.DayLaterScenario | src/time/instant.rs:384-393 | `from_gregorian`, `+ from_days(1.0)`, then `gregorian` returns 2024-11-14 08:01:03. |
| Scenarios.JdScenario | src/time/instant.rs:406-411 | Noon of 2024-11-24 is JD 2,460,639.0 and MJD 60,638.5. |
| Matrices.Filled | src/basemath/matrix.rs:120-141 | Every element of the filled grid is the given value. |
| Matrices.TransposeTwice | src/basemath/matrix.rs:186-194 | Transposing twice gives the grid back. |
| Matrices.TransposedAt | src/basemath/matrix.rs:186-194 | Element `(i, j)` of the transpose is element `(j, i)`. |
| Matrices.ColMajorIsTransposedRowMajor | src/basemath/matrix.rs:77-109 | A slice read column by column as M×N is the transpose of the slice read row by row as N×M. |
| Matrices.IdentityIsDiagonal | src/basemath/matrix.rs:660-682 | The identity is the diagonal of ones and is its own transpose. |
| Matrices.DiagSymmetric | src/basemath/matrix.rs:660-666 | A diagonal matrix is its own transpose. |
| Matrices.TransposeSwapsRowsAndColumns | src/basemath/matrix.rs:186-240 | Row `c` of the transpose is column `c`, and column `r` of the transpose is row `r`. |
| Matrices.Matrix.Zeros | src/basemath/matrix.rs:120-124 | A fresh M×N matrix whose every element is 0. |
| Matrices.Matrix.Ones | src/basemath/matrix.rs:137-141 | A fresh M×N matrix whose every element is 1. |
| Matrices.Matrix.FromColMajorArray | src/basemath/matrix.rs:36-38 | The argument, a list of N columns, becomes the storage. Element `(r, c)` is `a[c][r]`. |
| Matrices.Matrix.FromRowMajorArray | src/basemath/matrix.rs:53-61 | Element `(i, j)` is `a[i][j]` for every `i < M`, `j < N`. |
| Matrices.Matrix.FromColMajorSlice | src/basemath/matrix.rs:77-85 | From a slice of at least M·N elements, element `(r, c)` is `s[c*M + r]`. |
| Matrices.Matrix.FromRowMajorSlice | src/basemath/matrix.rs:101-109 | From a slice of at least M·N elements, element `(r, c)` is `s[r*N + c]`. |
| Matrices.Matrix.Identity | src/basemath/matrix.rs:676-682 | Element `(i, j)` is 1 when `i == j` and 0 otherwise. |
| Matrices.Matrix.DiagFromVector | src/basemath/matrix.rs:660-666 | `d[i]` is at `(i, i)` and 0 elsewhere. |
| Matrices.Matrix.FromVec | src/basemath/matrix.rs:817-819 | The array becomes the single column: `as_slice` returns it. |
| Matrices.Matrix.FromSlice | src/basemath/matrix.rs:832-836 | A slice of exactly N elements becomes the single column. |
| Matrices.Matrix.At | src/basemath/matrix.rs:613-620 | `m[(r, c)]` is row `r`, column `c`: storage `data[c][r]`. |
| Matrices.Matrix.SetAt | src/basemath/matrix.rs:636-641 | Writing `m[(r, c)]` changes that element and no other. |
| Matrices.Matrix.Get | src/basemath/matrix.rs:166-168 | `get(row, col)` reads `data[row][col]`, which is the element `m[(col, row)]`. |
| Matrices.Matrix.Set | src/basemath/matrix.rs:171-173 | `set(row, col, x)` changes only the element `m[(col, row)]`, and `get(row, col)` then returns `x`. |
| Matrices.Matrix.AsSlice | src/basemath/matrix.rs:850-852 | A vector's slice is its single column, top to bottom. |
| Matrices.Matrix.VectorAt | src/basemath/matrix.rs:571-577 | `v[i]` is element `(i, 0)`, the `i`-th of the slice. |
| Matrices.Matrix.VectorSetAt | src/basemath/matrix.rs:592-596 | Writing `v[i]` changes that element of the slice and no other. |
| Matrices.Matrix.Transpose | src/basemath/matrix.rs:186-194 | A fresh N×M matrix holding the transpose. |
| Matrices.Matrix.Column | src/basemath/matrix.rs:212-216 | A fresh vector holding column `col`: `column(c)[r] == m[(r, c)]`. |
| Matrices.Matrix.Row | src/basemath/matrix.rs:234-240 | A fresh vector of length `N` holding row `row`: `row(r)[i] == m[(r, i)]`. With no columns the loop reads nothing, so any `row` gives the empty vector. |

## Findings

| source | as written | input that shows it | evidently intended | confidence | as-written member | corrected member |
|---|---|---|---|---|---|---|
| src/time/instant.rs:207-216 | The time of day is `(raw - ls) % 86_400_000_000` with Rust's truncating `%`, which is negative before 1970. The hour, minute and second then come out negative. | `raw = MJD_EPOCH.raw + 3_600_000_000` (1858-11-17 01:00:00 UTC) gives hour −23. | The time of day by floor division (`rem_euclid`), giving 01:00:00 of 1858-11-17. | not executed | Instants.PreEpochHourNegative | Instants.CivilRoundTrip |

`Instants.CivilOf` is `gregorian` as written, and `Instants.CivilOfFloor` is the corrected reading. The two agree from the Unix epoch on (`Instants.CivilAgreesFromEpoch`). The round trip `Instants.CivilRoundTrip` is proved for the corrected reading for every year from −4715 on. For `gregorian` as written it holds from 1970 on (`Instants.CivilRoundTripFromEpoch`).

## Left out

- `src/instant.rs` is not part of this model. The crate does not compile it (`src/lib.rs` declares only `mod time`). It is an earlier draft with a different epoch, a whole-second table and a `>=` lookup, so it would give a second, incompatible `Instant`.
- `Instant::now` (src/time/instant.rs:291-301) is not modelled: it reads the system clock. Its leap correction is the same as that of `from_unixtime`, `LeapSeconds.Corrected`.
- The `Display` and `Debug` text of `Instant` (src/time/instant.rs:304-324) is not modelled: it is floating-point width and precision formatting of the `gregorian` fields.
- Floating point: `f64` values are exact reals, and `f64` results (`as_mjd`, `as_jd`, `as_unixtime`, seconds, the `as_*` accessors) are exact quotients without rounding. The six-decimal seconds of the duration display are the exact decimal of the count, where the source prints the `f64` quotient.
- Durations.FromSeconds and the other float constructors: the model does not capture `f64` rounding of the product `x * factor`; the product is exact before the cast truncates it.
- Instants.ClockRanges: stated for instants outside a leap second. Inside one, the clock is 23:59 with a second of 60 or more (`Instants.ReadingAtMidnight`, `Instants.ReadingInLastSecond`). For the oldest threshold it is 23:59:10 (`Instants.OldestThresholdReading`).
- Numerics.TruncatedDivision: stated for positive divisors only, because the source divides only by positive constants.
- Matrices.Matrix.At, Matrices.Matrix.SetAt, Matrices.Matrix.Get, Matrices.Matrix.Set, Matrices.Matrix.VectorAt, Matrices.Matrix.VectorSetAt, Matrices.Matrix.Column, Matrices.Matrix.Row, Matrices.Matrix.FromColMajorSlice, Matrices.Matrix.FromRowMajorSlice and Matrices.Matrix.FromSlice: in `src/basemath/matrix.rs` an index out of range, or a slice that is too short or of unequal length, panics. These members make the index and length bounds preconditions instead, so the panics are not modelled. `Matrices.Matrix.Row` asks for `row < M` only when there are columns, because with none the source reads no element and does not panic.
- Calendar.JulianDayNumber carries no contract of its own. What it computes is stated by `Calendar.EncodeParts` (the March-based closed form) and `Calendar.DateRoundTrip` (decoding inverts it).
- Matrices.Matrix.Rows and Matrices.Matrix.Cols return the fixed dimensions `M` and `N` and carry no contract beyond that.
- Matrix floating-point arithmetic (src/basemath/matrix.rs:255-558, 695-800, 884-1013) is not modelled: the tolerant `PartialEq`, scalar and matrix `+ − × ÷`, `+=`/`-=`, the product, `trace`, `determinant`, `inverse`, `dot`, `norm`, `normsq`, `cross`, `angle_between` and `Debug` are `f64` numerics. The constant vectors `xhat`, `yhat` and `zhat` are left out with them.
- `as_mut_slice` (src/basemath/matrix.rs:865-867) is not modelled separately: it hands out a mutable borrow of the single column, and writes through it are element writes, as in `Matrices.Matrix.VectorSetAt`.
- Matrix dimensions are fields of the class rather than type parameters, so a dimension mismatch that Rust rejects at compile time is a `requires` here.
- `src/frametransform/mod.rs` and `src/basemath/ode/odestate_matrix.rs` are not modelled: they are trigonometric and element-wise `f64` numerics. The time-scale enum, the error enums and the type aliases declare no operations. `build.rs` and `src/utils/mod.rs` read git and environment variables at build time.
