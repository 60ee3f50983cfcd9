/** The compiled-in leap-second table and its lookup (src/time/instant.rs:51-94).

    Every instant is a count of microseconds since the Unix epoch that also counts
    the leap seconds; a UTC reading is that count minus the leap offset in force.
    The table lists, newest first, the raw instant at which each leap second
    ends (`threshold`) and the cumulative offset in force after it. */
module LeapSeconds {
  import opened TimeUnits

  type LeapTable = seq<(int, int)>

  const LEAP_SECOND_TABLE: LeapTable := [
    (1483228836000000, 37000000), // 2017-01-01
    (1435708835000000, 36000000), // 2015-07-01
    (1341100834000000, 35000000), // 2012-07-01
    (1230768033000000, 34000000), // 2009-01-01
    (1136073632000000, 33000000), // 2006-01-01
    (915148831000000, 32000000),  // 1999-01-01
    (867715230000000, 31000000),  // 1997-07-01
    (820454429000000, 30000000),  // 1996-01-01
    (773020828000000, 29000000),  // 1994-07-01
    (741484827000000, 28000000),  // 1993-07-01
    (709948826000000, 27000000),  // 1992-07-01
    (662688025000000, 26000000),  // 1991-01-01
    (631152024000000, 25000000),  // 1990-01-01
    (567993623000000, 24000000),  // 1988-01-01
    (489024022000000, 23000000),  // 1985-07-01
    (425865621000000, 22000000),  // 1983-07-01
    (394329620000000, 21000000),  // 1982-07-01
    (362793619000000, 20000000),  // 1981-07-01
    (315532818000000, 19000000),  // 1980-01-01
    (283996817000000, 18000000),  // 1979-01-01
    (252460816000000, 17000000),  // 1978-01-01
    (220924815000000, 16000000),  // 1977-01-01
    (189302414000000, 15000000),  // 1976-01-01
    (157766413000000, 14000000),  // 1975-01-01
    (126230412000000, 13000000),  // 1974-01-01
    (94694411000000, 12000000),   // 1973-01-01
    (78796810000000, 11000000),   // 1972-07-01
    (63072009000000, 10000000)    // 1972-01-01
  ]

  /** The oldest threshold: no leap offset applies at or before it. */
  const FIRST_THRESHOLD: int := 63_072_009_000_000

  /** The newest threshold: the full 37 s offset applies after it. */
  const NEWEST_THRESHOLD: int := 1_483_228_836_000_000

  // ---------------------------------------------------------------------------
  // Shape of a table

  /** Thresholds fall from each entry to the next by more than `gap`. */
  ghost predicate Gapped(tbl: LeapTable, gap: int) {
    forall i :: 0 <= i < |tbl| - 1 ==> tbl[i].0 > tbl[i + 1].0 + gap
  }

  /** Offsets are whole seconds, 10 s at the oldest entry and one second more at each newer one. */
  ghost predicate Stepped(tbl: LeapTable) {
    forall i :: 0 <= i < |tbl| ==> tbl[i].1 == (9 + |tbl| - i) * SECOND
  }

  /** The table's thresholds lie more than 182 days apart, and its offsets run
      from 37 s down to 10 s in one-second steps. */
  lemma TableShape()
    ensures |LEAP_SECOND_TABLE| == 28
    ensures LEAP_SECOND_TABLE[27].0 == FIRST_THRESHOLD
    ensures Gapped(LEAP_SECOND_TABLE, 182 * DAY)
    ensures Stepped(LEAP_SECOND_TABLE)
  {
  }

  lemma GappedPair(tbl: LeapTable, gap: int, i: int, j: int)
    requires gap >= 0 && Gapped(tbl, gap)
    requires 0 <= i < j < |tbl|
    ensures tbl[i].0 > tbl[j].0 + gap
    decreases j - i
  {
    if j > i + 1 {
      GappedPair(tbl, gap, i, j - 1);
    }
  }

  lemma GappedWeaker(tbl: LeapTable, gap: int, smaller: int)
    requires Gapped(tbl, gap) && smaller <= gap
    ensures Gapped(tbl, smaller)
  {
  }

  // ---------------------------------------------------------------------------
  // The lookup

  /** Some entry of `tbl` has its threshold strictly below `raw` and carries `offset`. */
  predicate OffsetBelow(tbl: LeapTable, raw: int, offset: int)
  {
    |tbl| > 0 && ((tbl[0].0 < raw && tbl[0].1 == offset) || OffsetBelow(tbl[1..], raw, offset))
  }

  /** Offset of the first entry whose threshold lies strictly below `raw`, or 0 when there is none:
      a nonzero result is always the offset of an entry below `raw`. */
  function Lookup(tbl: LeapTable, raw: int): (r: int)
    ensures r == 0 || OffsetBelow(tbl, raw, r)
  {
    if |tbl| == 0 then 0
    else if raw > tbl[0].0 then tbl[0].1
    else Lookup(tbl[1..], raw)
  }

  /** The leap offset in force at `raw`, in microseconds (`microleapseconds`): 0 or between 10 s
      and 37 s, and the full 37 s past the newest threshold. */
  function LeapOffset(raw: int): (r: int)
    ensures 0 <= r <= 37 * SECOND && (r == 0 || 10 * SECOND <= r)
    ensures raw > NEWEST_THRESHOLD ==> r == 37 * SECOND
  {
    LookupBounds(raw);
    Lookup(LEAP_SECOND_TABLE, raw)
  }

  /** The lookup on the compiled-in table yields 0 or 10 s to 37 s, and 37 s past the newest threshold. */
  lemma LookupBounds(raw: int)
    ensures var r := Lookup(LEAP_SECOND_TABLE, raw);
            && 0 <= r <= 37 * SECOND && (r == 0 || 10 * SECOND <= r)
            && (raw > NEWEST_THRESHOLD ==> r == 37 * SECOND)
  {
    TableShape();
    GappedWeaker(LEAP_SECOND_TABLE, 182 * DAY, 0);
    LookupIsStep(LEAP_SECOND_TABLE, raw);
  }

  /** `microleapseconds` (src/time/instant.rs:87-94): scan the table newest first and return
      the offset of the first entry whose threshold is strictly below `raw`. */
  method MicroLeapSeconds(raw: int) returns (ls: int)
    ensures ls == LeapOffset(raw)
  {
    var i := 0;
    while i < |LEAP_SECOND_TABLE|
      invariant 0 <= i <= |LEAP_SECOND_TABLE|
      invariant forall j :: 0 <= j < i ==> LEAP_SECOND_TABLE[j].0 >= raw
      invariant Lookup(LEAP_SECOND_TABLE[i..], raw) == LeapOffset(raw)
    {
      var (t, offset) := LEAP_SECOND_TABLE[i];
      if raw > t {
        return offset;
      }
      assert LEAP_SECOND_TABLE[i..][1..] == LEAP_SECOND_TABLE[i + 1..];
      i := i + 1;
    }
    return 0;
  }

  /** The lookup returns 0 when no threshold lies below `raw`, and otherwise the offset of the
      first entry whose threshold does. */
  lemma {:induction false} LookupFirstBelow(tbl: LeapTable, raw: int)
    ensures (Lookup(tbl, raw) == 0 && forall j :: 0 <= j < |tbl| ==> tbl[j].0 >= raw)
         || (exists k :: 0 <= k < |tbl| && tbl[k].0 < raw && Lookup(tbl, raw) == tbl[k].1
                         && forall j :: 0 <= j < k ==> tbl[j].0 >= raw)
  {
    if |tbl| > 0 && raw <= tbl[0].0 {
      var rest := tbl[1..];
      LookupFirstBelow(rest, raw);
      if Lookup(rest, raw) == 0 && forall j :: 0 <= j < |rest| ==> rest[j].0 >= raw {
        forall j | 0 <= j < |tbl| ensures tbl[j].0 >= raw {
          if j > 0 {
            assert tbl[j] == rest[j - 1];
          }
        }
      } else {
        var k :| 0 <= k < |rest| && rest[k].0 < raw && Lookup(rest, raw) == rest[k].1
                 && forall j :: 0 <= j < k ==> rest[j].0 >= raw;
        assert tbl[k + 1] == rest[k];
        forall j | 0 <= j < k + 1 ensures tbl[j].0 >= raw {
          if j > 0 {
            assert tbl[j] == rest[j - 1];
          }
        }
      }
    } else if |tbl| > 0 {
      assert tbl[0].0 < raw && Lookup(tbl, raw) == tbl[0].1;
    }
  }

  /** The offset in force is that of the newest threshold strictly below `raw`, or 0 when there is
      none. */
  lemma LeapOffsetFirstBelow(raw: int)
    ensures (LeapOffset(raw) == 0 && forall j :: 0 <= j < |LEAP_SECOND_TABLE| ==> LEAP_SECOND_TABLE[j].0 >= raw)
         || (exists k :: 0 <= k < |LEAP_SECOND_TABLE| && LEAP_SECOND_TABLE[k].0 < raw
                         && LeapOffset(raw) == LEAP_SECOND_TABLE[k].1
                         && forall j :: 0 <= j < k ==> LEAP_SECOND_TABLE[j].0 >= raw)
  {
    LookupFirstBelow(LEAP_SECOND_TABLE, raw);
  }

  /** The lookup returns the offset of entry `k` exactly when `k` is the first entry below `raw`. */
  lemma LeapOffsetAt(raw: int, k: int)
    requires 0 <= k < |LEAP_SECOND_TABLE|
    requires LEAP_SECOND_TABLE[k].0 < raw
    requires k == 0 || raw <= LEAP_SECOND_TABLE[k - 1].0
    ensures LeapOffset(raw) == LEAP_SECOND_TABLE[k].1
  {
    TableShape();
    LookupAt(LEAP_SECOND_TABLE, raw, k);
  }

  lemma {:induction false} LookupAt(tbl: LeapTable, raw: int, k: int)
    requires Gapped(tbl, 0)
    requires 0 <= k < |tbl| && tbl[k].0 < raw
    requires k == 0 || raw <= tbl[k - 1].0
    ensures Lookup(tbl, raw) == tbl[k].1
  {
    if k > 0 {
      if k > 1 {
        GappedPair(tbl, 0, 0, k - 1);
      }
      assert tbl[1..][k - 1] == tbl[k];
      LookupAt(tbl[1..], raw, k - 1);
    }
  }

  // ---------------------------------------------------------------------------
  // The lookup as a step function of the number of thresholds passed

  /** How many thresholds of `tbl` lie strictly below `raw`. */
  function CountBelow(tbl: LeapTable, raw: int): (n: nat)
    ensures n <= |tbl|
  {
    if |tbl| == 0 then 0
    else (if tbl[0].0 < raw then 1 else 0) + CountBelow(tbl[1..], raw)
  }

  /** The offset in force once `n` thresholds have passed. */
  function OffsetAfter(n: nat): int
  {
    if n == 0 then 0 else (9 + n) * SECOND
  }

  lemma {:induction false} CountAllBelow(tbl: LeapTable, raw: int)
    requires Gapped(tbl, 0)
    requires |tbl| > 0 && tbl[0].0 < raw
    ensures CountBelow(tbl, raw) == |tbl|
  {
    if |tbl| > 1 {
      CountAllBelow(tbl[1..], raw);
    }
  }

  lemma {:induction false} LookupIsStep(tbl: LeapTable, raw: int)
    requires Gapped(tbl, 0) && Stepped(tbl)
    ensures Lookup(tbl, raw) == OffsetAfter(CountBelow(tbl, raw))
  {
    if |tbl| > 0 {
      if raw > tbl[0].0 {
        CountAllBelow(tbl, raw);
      } else {
        var rest := tbl[1..];
        assert Stepped(rest) by {
          forall i | 0 <= i < |rest| ensures rest[i].1 == (9 + |rest| - i) * SECOND {
            assert rest[i] == tbl[i + 1];
          }
        }
        LookupIsStep(rest, raw);
      }
    }
  }

  lemma {:induction false} CountMonotone(tbl: LeapTable, x: int, y: int)
    requires x <= y
    ensures CountBelow(tbl, x) <= CountBelow(tbl, y)
  {
    if |tbl| > 0 {
      CountMonotone(tbl[1..], x, y);
    }
  }

  /** An interval no longer than the table's gap holds at most one threshold. */
  lemma {:induction false} CountWindow(tbl: LeapTable, gap: int, x: int, y: int)
    requires gap >= 0 && Gapped(tbl, gap)
    requires x <= y <= x + gap
    ensures CountBelow(tbl, y) <= CountBelow(tbl, x) + 1
  {
    if |tbl| > 1 {
      if x <= tbl[0].0 < y {
        CountAllBelow(tbl[1..], x);
        CountAllBelow(tbl[1..], y);
      } else {
        CountWindow(tbl[1..], gap, x, y);
      }
    }
  }

  lemma {:induction false} CountAbove(tbl: LeapTable, k: int, x: int)
    requires Gapped(tbl, 0) && 0 <= k < |tbl|
    ensures x > tbl[k].0 ==> CountBelow(tbl, x) >= |tbl| - k
  {
    if x > tbl[k].0 {
      if k == 0 {
        CountAllBelow(tbl, x);
      } else {
        assert tbl[1..][k - 1] == tbl[k];
        CountAbove(tbl[1..], k - 1, x);
      }
    }
  }

  lemma {:induction false} CountAtMost(tbl: LeapTable, k: int, x: int)
    requires Gapped(tbl, 0) && 0 <= k < |tbl|
    ensures x <= tbl[k].0 ==> CountBelow(tbl, x) < |tbl| - k
  {
    if x <= tbl[k].0 && k > 0 {
      GappedPair(tbl, 0, 0, k);
      assert tbl[1..][k - 1] == tbl[k];
      CountAtMost(tbl[1..], k - 1, x);
    }
  }

  // ---------------------------------------------------------------------------
  // Properties of the lookup on the compiled-in table

  lemma TableFacts()
    ensures |LEAP_SECOND_TABLE| == 28
    ensures Gapped(LEAP_SECOND_TABLE, 38 * SECOND) && Gapped(LEAP_SECOND_TABLE, 0) && Stepped(LEAP_SECOND_TABLE)
    ensures forall raw :: LeapOffset(raw) == OffsetAfter(CountBelow(LEAP_SECOND_TABLE, raw))
  {
    TableShape();
    GappedWeaker(LEAP_SECOND_TABLE, 182 * DAY, 38 * SECOND);
    GappedWeaker(LEAP_SECOND_TABLE, 182 * DAY, 0);
    forall raw ensures LeapOffset(raw) == OffsetAfter(CountBelow(LEAP_SECOND_TABLE, raw)) {
      LookupIsStep(LEAP_SECOND_TABLE, raw);
    }
  }

  /** The offset never decreases as the instant advances. */
  lemma LeapOffsetMonotone(a: int, b: int)
    requires a <= b
    ensures LeapOffset(a) <= LeapOffset(b)
  {
    TableFacts();
    CountMonotone(LEAP_SECOND_TABLE, a, b);
  }

  /** The offset is zero up to and including the oldest threshold (1972-01-01), and a whole number
      of seconds between 10 s and 37 s after it. */
  lemma LeapOffsetRange(raw: int)
    ensures LeapOffset(raw) == 0 <==> raw <= FIRST_THRESHOLD
    ensures raw > FIRST_THRESHOLD ==>
              10 * SECOND <= LeapOffset(raw) <= 37 * SECOND && LeapOffset(raw) % SECOND == 0
  {
    TableFacts();
    CountAbove(LEAP_SECOND_TABLE, 27, raw);
    CountAtMost(LEAP_SECOND_TABLE, 27, raw);
  }

  /** No offset applies up to and including the oldest threshold. */
  lemma NoOffsetUpToFirst(raw: int)
    ensures raw <= FIRST_THRESHOLD ==> LeapOffset(raw) == 0
  {
    LeapOffsetRange(raw);
  }

  // ---------------------------------------------------------------------------
  // UTC to raw: the one-step fixed point of from_unixtime / from_gregorian / now

  /** The raw instant the constructors build from a UTC microsecond count `u`: add the offset at `u`,
      then add whatever further offset that sum has crossed (src/time/instant.rs:145-149, 282-286). */
  function Corrected(u: int): (r: int)
    ensures r == u + LeapOffset(u + LeapOffset(u))
    ensures u <= r <= u + 37 * SECOND
    ensures u > NEWEST_THRESHOLD ==> r == u + 37 * SECOND
  {
    var ls := LeapOffset(u);
    var raw := u + ls;
    raw + LeapOffset(raw) - ls
  }

  /** One re-check suffices: the offset in force at the corrected instant is the one that was added. */
  lemma {:induction false} CorrectedStep(u: int)
    ensures var c0 := CountBelow(LEAP_SECOND_TABLE, u);
            var c1 := CountBelow(LEAP_SECOND_TABLE, u + OffsetAfter(c0));
            && Corrected(u) == u + OffsetAfter(c1)
            && CountBelow(LEAP_SECOND_TABLE, Corrected(u)) == c1
            && (c1 == c0 || (c0 > 0 && c1 == c0 + 1))
  {
    TableFacts();
    var c0 := CountBelow(LEAP_SECOND_TABLE, u);
    var r0 := u + OffsetAfter(c0);
    var c1 := CountBelow(LEAP_SECOND_TABLE, r0);
    var r := u + OffsetAfter(c1);
    assert u + LeapOffset(u) == r0;
    assert Corrected(u) == r;
    if c0 > 0 {
      CountMonotone(LEAP_SECOND_TABLE, u, r0);
      CountWindow(LEAP_SECOND_TABLE, 38 * SECOND, u, r0);
      if c1 == c0 + 1 {
        CountMonotone(LEAP_SECOND_TABLE, r0, r);
        CountWindow(LEAP_SECOND_TABLE, 38 * SECOND, u, r);
      }
    }
  }

  /** Reading the corrected instant back as UTC (subtracting the offset in force there, as
      `as_unixtime` does) returns exactly the UTC count it was built from. */
  lemma CorrectedRoundTrip(u: int)
    ensures Corrected(u) - LeapOffset(Corrected(u)) == u
  {
    TableFacts();
    CorrectedStep(u);
  }

  /** Past 2017-01-01 00:00:00 UTC, the midnight that follows the last leap second of the table,
      the correction adds the full 37 seconds. */
  lemma CorrectedAfterLast(u: int)
    requires u > LEAP_SECOND_TABLE[0].0 - 36 * SECOND
    ensures Corrected(u) == u + 37 * SECOND
  {
    if u <= LEAP_SECOND_TABLE[0].0 {
      LeapOffsetAt(u, 1);
    } else {
      LeapOffsetAt(u, 0);
    }
    LeapOffsetAt(u + LeapOffset(u), 0);
  }

  /** A corrected instant never lands strictly inside the second that follows a threshold: past a
      threshold, it lies more than a second past it. */
  lemma CorrectedSkipsLeapSecond(u: int, k: int)
    requires 0 <= k < |LEAP_SECOND_TABLE|
    ensures LEAP_SECOND_TABLE[k].0 < Corrected(u) ==> LEAP_SECOND_TABLE[k].0 + SECOND < Corrected(u)
  {
    TableFacts();
    CorrectedStep(u);
    var t := LEAP_SECOND_TABLE[k].0;
    var n := |LEAP_SECOND_TABLE| - k;
    var c0 := CountBelow(LEAP_SECOND_TABLE, u);
    var r0 := u + OffsetAfter(c0);
    var c1 := CountBelow(LEAP_SECOND_TABLE, r0);
    if t < Corrected(u) {
      CountAbove(LEAP_SECOND_TABLE, k, Corrected(u));
      assert c1 >= n;
      CountAtMost(LEAP_SECOND_TABLE, k, r0);
      assert r0 > t;
      if c1 == c0 {
        CountAtMost(LEAP_SECOND_TABLE, k, u);
        assert u > t && OffsetAfter(c0) >= 10 * SECOND;
      } else {
        assert OffsetAfter(c1) >= OffsetAfter(c0) + SECOND;
      }
    }
  }

  // ---------------------------------------------------------------------------
  // The one-second display window after each threshold (src/time/instant.rs:219-230)

  /** `raw` lies in the second that starts at threshold `t`. */
  predicate InWindow(t: int, raw: int)
  {
    raw >= t && raw - t < SECOND
  }

  /** Some of the first `i` table entries has `raw` in its window. */
  predicate WindowHitBefore(raw: int, i: nat)
    requires i <= |LEAP_SECOND_TABLE|
  {
    i > 0 && (WindowHitBefore(raw, i - 1) || InWindow(LEAP_SECOND_TABLE[i - 1].0, raw))
  }

  /** `raw` is displayed as a leap second `23:59:60`. */
  predicate InLeapSecond(raw: int)
  {
    WindowHitBefore(raw, |LEAP_SECOND_TABLE|)
  }

  /** Windows of distinct entries never overlap, so the display loop adjusts at most once. */
  lemma WindowsDisjoint(raw: int, i: nat)
    requires i < |LEAP_SECOND_TABLE|
    ensures InWindow(LEAP_SECOND_TABLE[i].0, raw) ==> !WindowHitBefore(raw, i)
  {
    if InWindow(LEAP_SECOND_TABLE[i].0, raw) && i > 0 {
      TableFacts();
      WindowsAbove(raw, i);
    }
  }

  /** Before the oldest threshold nothing is displayed as a leap second. */
  lemma NoLeapSecondBeforeFirst(raw: int)
    requires raw < FIRST_THRESHOLD
    ensures !InLeapSecond(raw)
  {
    TableShape();
    WindowsAbove(raw, |LEAP_SECOND_TABLE|);
  }

  /** No entry among the first `i` has `raw` in its window when `raw` precedes all their thresholds. */
  lemma {:induction false} WindowsAbove(raw: int, i: nat)
    requires 0 < i <= |LEAP_SECOND_TABLE|
    requires raw < LEAP_SECOND_TABLE[i - 1].0
    ensures !WindowHitBefore(raw, i)
  {
    TableFacts();
    if i > 1 {
      WindowsAbove(raw, i - 1);
    }
  }

  /** `raw` is displayed as a leap second exactly when it lies in the window of some entry. */
  lemma {:induction false} InLeapSecondIff(raw: int, i: nat)
    requires i <= |LEAP_SECOND_TABLE|
    ensures WindowHitBefore(raw, i) <==> exists k :: 0 <= k < i && InWindow(LEAP_SECOND_TABLE[k].0, raw)
  {
    if i > 0 {
      InLeapSecondIff(raw, i - 1);
    }
  }
}
