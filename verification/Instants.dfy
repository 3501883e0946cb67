/** Durations, instants and their arithmetic under one cached scale `q`. */
module Instants {
  import opened Words
  import opened Q32

  type SubsecNanos = n: nat | n < 1_000_000_000

  datatype Duration = Duration(secs: u64, subsec: SubsecNanos)

  const ZERO := Duration(0, 0)

  function AsNanos(d: Duration): (n: nat)
    ensures n < TWO64 * NANOS_PER_SECOND
  {
    d.secs * NANOS_PER_SECOND + d.subsec
  }

  function FromNanos(nanos: u64): Duration {
    Duration(nanos / NANOS_PER_SECOND, nanos % NANOS_PER_SECOND)
  }

  function TicksToDuration(q: u64, ticks: u64): Duration {
    var nanos := Nanos(q, ticks);
    if nanos < NANOS_PER_SECOND then Duration(0, nanos) else FromNanos(nanos)
  }

  /** `checked_shl(32)` on a 128-bit word: only the shift amount is checked, high bits are dropped silently. */
  function Shl32(n: nat): nat
    requires n < TWO128
  {
    n * TWO32 % TWO128
  }

  function DurationToTicks(q: u64, d: Duration): Option<u64> {
    if q == 0 then None
    else
      var ticks := Shl32(AsNanos(d)) / q;
      if ticks <= U64_MAX then Some(ticks) else None
  }

  datatype Instant = Instant(ticks: u64) {
    function Elapsed(q: u64, now: u64): Duration {
      TicksToDuration(q, WrappingSub(now, ticks))
    }

    function CheckedDurationSince(q: u64, earlier: Instant): Option<Duration> {
      match Words.CheckedSub(ticks, earlier.ticks)
      case None => None
      case Some(delta) => Some(TicksToDuration(q, delta))
    }

    function DurationSince(q: u64, earlier: Instant): Duration {
      match CheckedDurationSince(q, earlier)
      case None => ZERO
      case Some(d) => d
    }

    function CheckedAdd(q: u64, d: Duration): Option<Instant> {
      match DurationToTicks(q, d)
      case None => None
      case Some(delta) =>
        match Words.CheckedAdd(ticks, delta)
        case None => None
        case Some(t) => Some(Instant(t))
    }

    function CheckedSub(q: u64, d: Duration): Option<Instant> {
      match DurationToTicks(q, d)
      case None => None
      case Some(delta) =>
        match Words.CheckedSub(ticks, delta)
        case None => None
        case Some(t) => Some(Instant(t))
    }
  }

  /** Every duration is far enough below 2^96 nanoseconds for the shift to keep all its bits. */
  lemma ShiftIsLossless(d: Duration)
    ensures AsNanos(d) < TWO128 && Shl32(AsNanos(d)) == AsNanos(d) * TWO32
  {
    assert AsNanos(d) * TWO32 < TWO128;
  }

  lemma TicksOfDuration(q: u64, d: Duration)
    ensures DurationToTicks(q, d) ==
            if q != 0 && IdealTicks(q, AsNanos(d)) <= U64_MAX then Some(IdealTicks(q, AsNanos(d))) else None
  {
    ShiftIsLossless(d);
  }

  /** Addition and subtraction fail exactly when the scale is unset or the ideal tick result leaves the word. */
  lemma SucceedsExactly(q: u64, t: Instant, d: Duration)
    ensures t.CheckedAdd(q, d) ==
            if q != 0 && t.ticks + IdealTicks(q, AsNanos(d)) <= U64_MAX
            then Some(Instant(t.ticks + IdealTicks(q, AsNanos(d)))) else None
    ensures t.CheckedSub(q, d) ==
            if q != 0 && IdealTicks(q, AsNanos(d)) <= t.ticks
            then Some(Instant(t.ticks - IdealTicks(q, AsNanos(d)))) else None
  {
    TicksOfDuration(q, d);
  }

  /** An instant updated in place; an operator that would panic reports `false` and leaves it alone. */
  class InstantVar {
    var ticks: u64

    constructor (t: Instant)
      ensures ticks == t.ticks
    {
      ticks := t.ticks;
    }

    method AddAssign(q: u64, d: Duration) returns (ok: bool)
      modifies this
      ensures ok <==> q != 0 && old(ticks) + IdealTicks(q, AsNanos(d)) <= U64_MAX
      ensures ticks == if ok then old(ticks) + IdealTicks(q, AsNanos(d)) else old(ticks)
    {
      SucceedsExactly(q, Instant(ticks), d);
      var sum := Instant(ticks).CheckedAdd(q, d);
      ok := sum.Some?;
      if ok { ticks := sum.value.ticks; }
    }

    method SubAssign(q: u64, d: Duration) returns (ok: bool)
      modifies this
      ensures ok <==> q != 0 && IdealTicks(q, AsNanos(d)) <= old(ticks)
      ensures ticks == if ok then old(ticks) - IdealTicks(q, AsNanos(d)) else old(ticks)
    {
      SucceedsExactly(q, Instant(ticks), d);
      var diff := Instant(ticks).CheckedSub(q, d);
      ok := diff.Some?;
      if ok { ticks := diff.value.ticks; }
    }
  }

  lemma NanosOfDuration(nanos: u64)
    ensures AsNanos(FromNanos(nanos)) == nanos
    ensures nanos < NANOS_PER_SECOND ==> FromNanos(nanos) == Duration(0, nanos)
  {
  }

  /** The sub-second fast path builds the same duration as the general path. */
  lemma FastPathAgrees(q: u64, ticks: u64)
    ensures TicksToDuration(q, ticks) == FromNanos(Nanos(q, ticks))
    ensures AsNanos(TicksToDuration(q, ticks)) == Nanos(q, ticks)
  {
    NanosOfDuration(Nanos(q, ticks));
  }

  /** Adding a duration and subtracting it again, in either order, restores the instant. */
  lemma AddSubInverse(q: u64, t: Instant, d: Duration)
    ensures t.CheckedAdd(q, d).Some? ==> t.CheckedAdd(q, d).value.CheckedSub(q, d) == Some(t)
    ensures t.CheckedSub(q, d).Some? ==> t.CheckedSub(q, d).value.CheckedAdd(q, d) == Some(t)
  {
    SucceedsExactly(q, t, d);
    if t.CheckedAdd(q, d).Some? { SucceedsExactly(q, t.CheckedAdd(q, d).value, d); }
    if t.CheckedSub(q, d).Some? { SucceedsExactly(q, t.CheckedSub(q, d).value, d); }
  }

  lemma QuotientSplit(q: nat, x: nat, y: nat)
    requires 0 < q
    ensures x / q + y / q <= (x + y) / q <= x / q + y / q + 1
  {
    var a, b := x / q, y / q;
    DivBounds(x, q);
    DivBounds(y, q);
    assert (a + b) * q == a * q + b * q && (a + b + 2) * q == a * q + q + b * q + q;
    QuotientIsLargest(x + y, q, a + b);
    QuotientIsLargest(x + y, q, a + b + 2);
  }

  lemma IdealTicksSplit(q: u64, m: nat, n: nat)
    requires 0 < q
    ensures IdealTicks(q, m) + IdealTicks(q, n) <= IdealTicks(q, m + n) <= IdealTicks(q, m) + IdealTicks(q, n) + 1
  {
    var x, y := m * TWO32, n * TWO32;
    assert (m + n) * TWO32 == x + y;
    QuotientSplit(q, x, y);
  }

  function AddBoth(q: u64, t: Instant, d: Duration, e: Duration): Option<Instant> {
    match t.CheckedAdd(q, d)
    case None => None
    case Some(u) => u.CheckedAdd(q, e)
  }

  /** Adding `d` and then `e` succeeds whenever adding their sum does, and lands on that instant or one tick before it;
      it succeeds alone only when it lands on the last representable tick. */
  lemma AddInTwoSteps(q: u64, t: Instant, d: Duration, e: Duration, both: Duration)
    requires AsNanos(both) == AsNanos(d) + AsNanos(e)
    ensures t.CheckedAdd(q, both).Some? ==>
      && AddBoth(q, t, d, e).Some?
      && AddBoth(q, t, d, e).value.ticks <= t.CheckedAdd(q, both).value.ticks <= AddBoth(q, t, d, e).value.ticks + 1
    ensures t.CheckedAdd(q, both).None? && AddBoth(q, t, d, e).Some? ==> AddBoth(q, t, d, e).value.ticks == U64_MAX
  {
    SucceedsExactly(q, t, both);
    SucceedsExactly(q, t, d);
    if t.CheckedAdd(q, d).Some? {
      SucceedsExactly(q, t.CheckedAdd(q, d).value, e);
    }
    if q != 0 {
      IdealTicksSplit(q, AsNanos(d), AsNanos(e));
    }
  }

  /** Nanoseconds to ticks and back: never more, and short by at most the rounded-up length of one tick less one
      unit. */
  lemma NanosRoundTrip(q: u64, nanos: nat)
    requires 0 < q && IdealTicks(q, nanos) <= U64_MAX
    ensures nanos - CeilDiv(q - 1, TWO32) <= WideNanos(q, IdealTicks(q, nanos)) <= nanos
  {
    var t, c := IdealTicks(q, nanos), CeilDiv(q - 1, TWO32);
    NearAdjoint(q, t, nanos);
    DivBounds(nanos * TWO32, q);
    CeilingIsSmallest(q - 1, TWO32, c);
    QuotientIsLargest(t * q, TWO32, nanos - c);
  }

  /** Ticks to nanoseconds and back, for an unsaturated tick count. */
  lemma TicksRoundTrip(q: u64, ticks: u64)
    requires 0 < q && !Saturates(q, ticks)
    ensures ticks - CeilDiv(TWO32 - 1, q) <= IdealTicks(q, Nanos(q, ticks)) <= ticks
  {
    var n, c := Nanos(q, ticks), CeilDiv(TWO32 - 1, q);
    DivBounds(ticks * q, TWO32);
    CeilingIsSmallest(TWO32 - 1, q, c);
    assert (ticks - c) * q == ticks * q - c * q;
    QuotientIsLargest(n * TWO32, q, ticks - c);
    QuotientIsLargest(n * TWO32, q, ticks + 1);
    assert (ticks + 1) * q == ticks * q + q;
  }

  /** Adding a duration and measuring it back loses at most the round-trip error, or what the duration exceeds 64 bits
      by. */
  lemma AddThenSince(q: u64, t: Instant, d: Duration)
    requires t.CheckedAdd(q, d).Some?
    ensures var back := AsNanos(t.CheckedAdd(q, d).value.DurationSince(q, t));
      && back <= AsNanos(d)
      && AsNanos(d) - back <= Max(CeilDiv(q - 1, TWO32), AsNanos(d) - U64_MAX)
  {
    SucceedsExactly(q, t, d);
    var delta := IdealTicks(q, AsNanos(d));
    FastPathAgrees(q, delta);
    NanosRoundTrip(q, AsNanos(d));
  }

  lemma WithinOneTick(q: u64, nanos: nat, ticks: u64)
    requires 0 < q && IdealTicks(q, nanos) <= ticks <= IdealTicks(q, nanos) + 1
    ensures nanos - CeilDiv(q - 1, TWO32) <= WideNanos(q, ticks) <= nanos + q / TWO32
  {
    var t := IdealTicks(q, nanos);
    NanosRoundTrip(q, nanos);
    NanosMonotone(q, t, ticks);
    DivBounds(nanos * TWO32, q);
    assert (t + 1) * q == t * q + q;
    MulLe(ticks, t + 1, q);
    QuotientMonotone(ticks * q, nanos * TWO32 + q, TWO32);
  }

  lemma SinceLaterTicks(q: u64, t: Instant, later: Instant)
    requires t.ticks <= later.ticks
    ensures AsNanos(later.DurationSince(q, t)) == Nanos(q, later.ticks - t.ticks)
  {
    FastPathAgrees(q, later.ticks - t.ticks);
  }

  /** `t += d; t -= e` lands within one tick above `t + (d - e)`. */
  lemma AddThenSub(q: u64, t: Instant, d: Duration, e: Duration)
    requires AsNanos(e) <= AsNanos(d)
    requires t.CheckedAdd(q, d).Some?
    ensures t.CheckedAdd(q, d).value.CheckedSub(q, e).Some?
    ensures q != 0
    ensures var step := IdealTicks(q, AsNanos(d) - AsNanos(e));
      t.ticks + step <= t.CheckedAdd(q, d).value.CheckedSub(q, e).value.ticks <= t.ticks + step + 1
  {
    SucceedsExactly(q, t, d);
    IdealTicksSplit(q, AsNanos(d) - AsNanos(e), AsNanos(e));
    SucceedsExactly(q, t.CheckedAdd(q, d).value, e);
  }

  /** The distance measured after `t += d; t -= e` is `d - e` to within one tick and one rounding, as far as it fits
      the word. */
  lemma AddThenSubThenSince(q: u64, t: Instant, d: Duration, e: Duration)
    requires AsNanos(e) <= AsNanos(d)
    requires t.CheckedAdd(q, d).Some?
    ensures t.CheckedAdd(q, d).value.CheckedSub(q, e).Some?
    ensures q != 0
    ensures var back := AsNanos(t.CheckedAdd(q, d).value.CheckedSub(q, e).value.DurationSince(q, t));
      var want := AsNanos(d) - AsNanos(e);
      && back <= want + q / TWO32
      && want - back <= Max(CeilDiv(q - 1, TWO32), want - U64_MAX)
  {
    AddThenSub(q, t, d, e);
    var u := t.CheckedAdd(q, d).value.CheckedSub(q, e).value;
    SinceLaterTicks(q, t, u);
    WithinOneTick(q, AsNanos(d) - AsNanos(e), u.ticks - t.ticks);
  }

  // ----- wraparound -----

  /** Elapsed converts the true difference of an unbounded counter read modulo 2^64, up to a full turn apart. */
  lemma ElapsedAcrossWrap(q: u64, start: nat, now: nat)
    requires start <= now < start + TWO64
    ensures Instant(start % TWO64).Elapsed(q, now % TWO64) == TicksToDuration(q, now - start)
  {
    assert now == TWO64 * (now / TWO64) + now % TWO64;
    assert start == TWO64 * (start / TWO64) + start % TWO64;
    assert (now % TWO64 - start % TWO64) % TWO64 == now - start;
  }

  /** The checked form agrees with `elapsed` exactly when the later word is not below the earlier; otherwise it
      refuses. */
  lemma CheckedSinceAgreesExactly(q: u64, start: Instant, now: u64)
    ensures start.ticks <= now ==>
      && Instant(now).CheckedDurationSince(q, start) == Some(start.Elapsed(q, now))
      && Instant(now).DurationSince(q, start) == start.Elapsed(q, now)
    ensures now < start.ticks ==>
      Instant(now).CheckedDurationSince(q, start) == None && Instant(now).DurationSince(q, start) == ZERO
  {
    if start.ticks <= now {
      assert WrappingSub(now, start.ticks) == now - start.ticks;
    }
  }

  // ----- laps -----

  predicate NonDecreasing(marks: seq<u64>) {
    forall i, j :: 0 <= i < j < |marks| ==> marks[i] <= marks[j]
  }

  /** The nanoseconds of the consecutive durations between `marks`. */
  function LapSum(q: u64, marks: seq<u64>): nat {
    var n := |marks|;
    if n < 2 then 0
    else LapSum(q, marks[..n - 1]) + AsNanos(Instant(marks[n - 1]).DurationSince(q, Instant(marks[n - 2])))
  }

  function EndToEnd(q: u64, marks: seq<u64>): nat
    requires 0 < |marks|
  {
    AsNanos(Instant(marks[|marks| - 1]).DurationSince(q, Instant(marks[0])))
  }

  lemma WideSplit(q: u64, a: u64, b: u64)
    requires a + b <= U64_MAX
    ensures WideNanos(q, a) + WideNanos(q, b) <= WideNanos(q, a + b) <= WideNanos(q, a) + WideNanos(q, b) + 1
  {
    assert (a + b) * q == a * q + b * q;
    var x, y := a * q, b * q;
    assert x / TWO32 + y / TWO32 <= (x + y) / TWO32 <= x / TWO32 + y / TWO32 + 1;
  }

  lemma NanosSplit(q: u64, a: u64, b: u64)
    requires a + b <= U64_MAX
    ensures Nanos(q, a + b) <= Nanos(q, a) + Nanos(q, b) + 1
    ensures Nanos(q, a) + Nanos(q, b) <= Nanos(q, a + b) || Nanos(q, a + b) == U64_MAX
  {
    WideSplit(q, a, b);
  }

  /** Laps never lose more than a nanosecond per boundary, and exceed the total only when their own sum leaves 64
      bits. */
  lemma {:induction false} LapConservation(q: u64, marks: seq<u64>)
    requires 2 <= |marks| && NonDecreasing(marks)
    ensures EndToEnd(q, marks) <= LapSum(q, marks) + |marks| - 2
    ensures LapSum(q, marks) <= EndToEnd(q, marks) <==> LapSum(q, marks) <= U64_MAX
  {
    var n := |marks|;
    var init := marks[..n - 1];
    var lap := marks[n - 1] - marks[n - 2];
    FastPathAgrees(q, lap);
    FastPathAgrees(q, marks[n - 1] - marks[0]);
    if n == 2 {
      assert LapSum(q, init) == 0;
    } else {
      FastPathAgrees(q, marks[n - 2] - marks[0]);
      LapConservation(q, init);
      NanosSplit(q, marks[n - 2] - marks[0], lap);
    }
  }

  lemma {:induction false} LapsBelowWide(q: u64, marks: seq<u64>)
    requires 0 < |marks| && NonDecreasing(marks)
    ensures LapSum(q, marks) <= WideNanos(q, marks[|marks| - 1] - marks[0])
  {
    var n := |marks|;
    if n < 2 {
    } else {
      LapsBelowWide(q, marks[..n - 1]);
      var a, b := marks[n - 2] - marks[0], marks[n - 1] - marks[n - 2];
      FastPathAgrees(q, b);
      WideSplit(q, a, b);
    }
  }

  /** When the end-to-end conversion does not saturate, the laps sum to at most it. */
  lemma LapsWithinTotal(q: u64, marks: seq<u64>)
    requires 2 <= |marks| && NonDecreasing(marks)
    requires !Saturates(q, marks[|marks| - 1] - marks[0])
    ensures EndToEnd(q, marks) - (|marks| - 2) <= LapSum(q, marks) <= EndToEnd(q, marks)
  {
    LapConservation(q, marks);
    LapsBelowWide(q, marks);
    FastPathAgrees(q, marks[|marks| - 1] - marks[0]);
  }
}
