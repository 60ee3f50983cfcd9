/** Arithmetic and comparison of instants (src/time/instant_ops.rs): an instant moves by a
    duration's microseconds, two instants differ by a duration, and instants compare by their
    raw counts. Every operator exists for owned and borrowed operands with the same body; one
    member models each. An `i64` overflow panics in the source and is excluded by `requires`. */
module InstantOps {
  import opened Numerics
  import opened Instants
  import Durations

  /** `Instant + Duration`: an instant after `t` exactly when `d` is positive, and equal to it
      exactly when `d` is zero. */
  function Add(t: Instant, d: Durations.Duration): (r: Instant)
    requires InI64(t.raw + d.usec)
    ensures Lt(t, r) <==> d.usec > 0
    ensures Eq(r, t) <==> d.usec == 0
  {
    Instant(t.raw + d.usec)
  }

  /** `Instant - Duration`: the instant from which `d` later is `t`. */
  function Sub(t: Instant, d: Durations.Duration): (r: Instant)
    requires InI64(t.raw - d.usec)
    ensures InI64(r.raw + d.usec) && Add(r, d) == t
    ensures Lt(r, t) <==> d.usec > 0
  {
    Instant(t.raw - d.usec)
  }

  /** `Instant - Instant`: the duration between the two, positive exactly when `a` is the later
      one and zero exactly when they are equal. */
  function Diff(a: Instant, b: Instant): (d: Durations.Duration)
    requires InI64(a.raw - b.raw)
    ensures d.usec > 0 <==> Lt(b, a)
    ensures d.usec == 0 <==> Eq(a, b)
  {
    Durations.Duration(a.raw - b.raw)
  }

  /** `PartialEq`: two instants are equal when their raw counts are, which makes it equality of
      the values. */
  predicate Eq(a: Instant, b: Instant)
    ensures Eq(a, b) <==> a == b
  {
    a.raw == b.raw
  }

  datatype Ordering = Less | Equal | Greater

  datatype Option<T> = None | Some(value: T)

  /** `PartialOrd`: the comparison of the raw counts, which for `i64` is always defined. */
  function PartialCmp(a: Instant, b: Instant): (r: Option<Ordering>)
    ensures r.Some?
  {
    if a.raw < b.raw then Some(Less) else if a.raw == b.raw then Some(Equal) else Some(Greater)
  }

  /** The `<` that `PartialOrd` derives from `partial_cmp`: the order of the raw counts. */
  predicate Lt(a: Instant, b: Instant)
    ensures Lt(a, b) <==> a.raw < b.raw
  {
    PartialCmp(a, b) == Some(Less)
  }

  /** The `<=` that `PartialOrd` derives from `partial_cmp`: `<` or equal. */
  predicate Le(a: Instant, b: Instant)
    ensures Le(a, b) <==> Lt(a, b) || a == b
  {
    PartialCmp(a, b) == Some(Less) || PartialCmp(a, b) == Some(Equal)
  }

  // ---------------------------------------------------------------------------
  // Properties

  /** Moving by a duration and back returns the starting instant, either way round. */
  lemma AddSubInverse(t: Instant, d: Durations.Duration)
    requires InI64(t.raw + d.usec)
    ensures Sub(Add(t, d), d) == t
  {
  }

  lemma SubAddInverse(t: Instant, d: Durations.Duration)
    requires InI64(t.raw - d.usec)
    ensures Add(Sub(t, d), d) == t
  {
  }

  /** The difference of an instant moved by `d` and the instant is `d`. */
  lemma DiffOfAdd(t: Instant, d: Durations.Duration)
    requires InI64(t.raw + d.usec)
    ensures Diff(Add(t, d), t) == d
  {
  }

  /** Moving `b` by the difference `a - b` reaches `a`, and moving `a` back by it reaches `b`. */
  lemma AddDiff(a: Instant, b: Instant)
    requires InI64(a.raw - b.raw)
    ensures Add(b, Diff(a, b)) == a
    ensures Sub(a, Diff(a, b)) == b
  {
  }

  /** Moving by `x` then by `y` is moving by their sum. */
  lemma AddAssociates(t: Instant, x: Durations.Duration, y: Durations.Duration)
    requires InI64(t.raw + x.usec) && InI64(x.usec + y.usec) && InI64(t.raw + x.usec + y.usec)
    ensures Add(Add(t, x), y) == Add(t, Durations.Add(x, y))
  {
  }

  /** Equality of instants is equality of the values, and the comparison answers `Equal` exactly
      then. */
  lemma EqIsIdentity(a: Instant, b: Instant)
    ensures Eq(a, b) <==> a == b
    ensures PartialCmp(a, b) == Some(Equal) <==> a == b
  {
  }

  /** The comparison orders instants as their raw counts, and swapping the operands reverses it. */
  lemma CmpIsRawOrder(a: Instant, b: Instant)
    ensures Lt(a, b) <==> a.raw < b.raw
    ensures Le(a, b) <==> a.raw <= b.raw
    ensures PartialCmp(a, b) == Some(Less) <==> PartialCmp(b, a) == Some(Greater)
  {
  }

  /** The order is total and transitive. */
  lemma LtTransitive(a: Instant, b: Instant, c: Instant)
    ensures Lt(a, b) && Lt(b, c) ==> Lt(a, c)
    ensures Lt(a, b) || Eq(a, b) || Lt(b, a)
  {
  }

  /** Adding a non-negative duration never moves an instant earlier, and a positive one moves it
      later. */
  lemma AddMonotone(t: Instant, d: Durations.Duration)
    requires InI64(t.raw + d.usec)
    ensures d.usec >= 0 <==> Le(t, Add(t, d))
    ensures d.usec > 0 <==> Lt(t, Add(t, d))
  {
  }

  /** Moving both sides by the same duration keeps their order and their difference. */
  lemma AddPreservesOrder(a: Instant, b: Instant, d: Durations.Duration)
    requires InI64(a.raw + d.usec) && InI64(b.raw + d.usec) && InI64(a.raw - b.raw)
    ensures Lt(a, b) <==> Lt(Add(a, d), Add(b, d))
    ensures Diff(Add(a, d), Add(b, d)) == Diff(a, b)
  {
  }

  // ---------------------------------------------------------------------------
  // In-place update (src/time/instant_ops.rs:124-170)

  /** A mutable `Instant` place, as `+=` and `-=` take it by `&mut self`. */
  class InstantCell {
    var value: Instant

    constructor(t: Instant)
      ensures value == t
    {
      value := t;
    }

    /** `+=`: only the raw count changes, by the duration's microseconds. */
    method AddAssign(d: Durations.Duration)
      modifies this
      requires InI64(value.raw + d.usec)
      ensures value == Add(old(value), d)
      ensures Diff(value, old(value)) == d
    {
      value := Instant(value.raw + d.usec);
    }

    /** `-=`: only the raw count changes, by minus the duration's microseconds. */
    method SubAssign(d: Durations.Duration)
      modifies this
      requires InI64(value.raw - d.usec)
      ensures value == Sub(old(value), d)
      ensures Add(value, d) == old(value)
    {
      value := Instant(value.raw - d.usec);
    }
  }
}
