/** Spin-loop calibration of the tick rate against the wall clock. */
module Calibration {
  import opened Words
  import opened Q32
  import opened OrderStatistics

  const CALIBRATION_TIME_NS: nat := 10_000_000
  const NUM_SAMPLES: nat := 5

  /** The `i`-th clock access of the process returns `wall(i)` or `tick(i)`, whichever clock the code reads there. */
  datatype Host = Host(wall: nat -> u64, tick: nat -> u64)

  function WallElapsed(host: Host, from: nat, to: nat): u64 {
    WrappingSub(host.wall(to), host.wall(from))
  }

  /** `stop` names, for every start, an access at which the spin loop would leave: the loop terminates. */
  ghost predicate Terminates(host: Host, stop: nat -> nat) {
    forall start: nat :: start + 2 <= stop(start) && CALIBRATION_TIME_NS <= WallElapsed(host, start, stop(start))
  }

  /** The first access from `i` on that ends the spin begun at `start`. */
  ghost function SpinEnd(host: Host, start: nat, i: nat, bound: nat): (e: nat)
    requires i <= bound && CALIBRATION_TIME_NS <= WallElapsed(host, start, bound)
    ensures i <= e <= bound
    ensures CALIBRATION_TIME_NS <= WallElapsed(host, start, e)
    ensures forall j | i <= j < e :: WallElapsed(host, start, j) < CALIBRATION_TIME_NS
    decreases bound - i
  {
    if CALIBRATION_TIME_NS <= WallElapsed(host, start, i) then i else SpinEnd(host, start, i + 1, bound)
  }

  /** One sample: wall read at `start`, tick read next, spin ended at `spun`, then a tick and a wall read. */
  datatype Bracket = Bracket(start: nat, spun: nat)

  /** The access that follows the samples `bs`. */
  function NextAccess(bs: seq<Bracket>): nat {
    if bs == [] then 0 else bs[|bs| - 1].spun + 3
  }

  /** The spin ended at the first access at or after 10 000 000 ns, looked for from the second access after the
      start. */
  predicate EndsFirst(host: Host, b: Bracket) {
    && b.start + 2 <= b.spun
    && 10_000_000 <= WallElapsed(host, b.start, b.spun)
    && forall j | b.start + 2 <= j < b.spun :: WallElapsed(host, b.start, j) < 10_000_000
  }

  ghost function BracketFrom(host: Host, stop: nat -> nat, start: nat): (b: Bracket)
    requires Terminates(host, stop)
    ensures b.start == start && EndsFirst(host, b)
  {
    Bracket(start, SpinEnd(host, start, start + 2, stop(start)))
  }

  /** The first `n` samples the loop takes. */
  ghost function Brackets(host: Host, stop: nat -> nat, n: nat): (bs: seq<Bracket>)
    requires Terminates(host, stop)
    ensures |bs| == n
  {
    if n == 0 then []
    else
      var before := Brackets(host, stop, n - 1);
      before + [BracketFrom(host, stop, NextAccess(before))]
  }

  /** `checked_div` of the widened tick count by the wall time. */
  function CheckedRate(ticks: u64, wall: u64): Option<nat> {
    if wall == 0 then None else Some(ticks * NANOS_PER_SECOND / wall)
  }

  /** The slot keeps its initial zero when the wall clock did not move. */
  function Estimate(host: Host, b: Bracket): u64 {
    var ticks := WrappingSub(host.tick(b.spun + 1), host.tick(b.start + 1));
    match CheckedRate(ticks, WallElapsed(host, b.start, b.spun + 2))
    case None => 0
    case Some(hz) => TryU64(hz, U64_MAX)
  }

  function Estimates(host: Host, bs: seq<Bracket>): (es: seq<int>)
    ensures |es| == |bs|
  {
    if bs == [] then [] else Estimates(host, bs[..|bs| - 1]) + [Estimate(host, bs[|bs| - 1])]
  }

  lemma {:induction false} EstimatesAt(host: Host, bs: seq<Bracket>, i: nat)
    requires i < |bs|
    ensures Estimates(host, bs)[i] == Estimate(host, bs[i])
  {
    if i == |bs| - 1 {
    } else {
      EstimatesAt(host, bs[..|bs| - 1], i);
    }
  }

  /** The reads that follow the spin, and the slot they fill. */
  method EndSample(host: Host, start: nat, spun: nat) returns (estimate: u64)
    ensures estimate == Estimate(host, Bracket(start, spun))
  {
    var ticks := WrappingSub(host.tick(spun + 1), host.tick(start + 1));
    var rate := CheckedRate(ticks, WallElapsed(host, start, spun + 2));
    estimate := 0;
    if rate.Some? {
      estimate := TryU64(rate.value, U64_MAX);
    }
  }

  /** One pass of the sampling loop: the estimate it writes and the first access after it. */
  method TakeSample(host: Host, access: nat, ghost stop: nat -> nat) returns (estimate: u64, next: nat)
    requires Terminates(host, stop)
    ensures var b := BracketFrom(host, stop, access);
      && estimate == Estimate(host, b) && next == b.spun + 3
      && b.start == access && EndsFirst(host, b)
  {
    var spin := access + 2;
    while WallElapsed(host, access, spin) < CALIBRATION_TIME_NS
      invariant spin <= stop(access)
      invariant SpinEnd(host, access, spin, stop(access)) == SpinEnd(host, access, access + 2, stop(access))
      decreases stop(access) - spin
    {
      spin := spin + 1;
    }
    assert BracketFrom(host, stop, access) == Bracket(access, spin);
    estimate := EndSample(host, access, spin);
    next := spin + 3;
  }

  lemma NextSample(host: Host, stop: nat -> nat, k: nat)
    requires Terminates(host, stop)
    ensures var b := BracketFrom(host, stop, NextAccess(Brackets(host, stop, k)));
      && Estimates(host, Brackets(host, stop, k + 1)) == Estimates(host, Brackets(host, stop, k)) + [Estimate(host, b)]
      && NextAccess(Brackets(host, stop, k + 1)) == b.spun + 3
  {
    var bs := Brackets(host, stop, k);
    var longer := Brackets(host, stop, k + 1);
    assert longer == bs + [BracketFrom(host, stop, NextAccess(bs))];
    assert longer[..|longer| - 1] == bs;
  }

  /** After `k` samples: their estimates, and the access that comes next. */
  ghost predicate Collected(host: Host, stop: nat -> nat, k: nat, access: nat, estimates: seq<int>)
    requires Terminates(host, stop)
  {
    access == NextAccess(Brackets(host, stop, k)) && estimates == Estimates(host, Brackets(host, stop, k))
  }

  lemma CollectNext(host: Host, stop: nat -> nat, k: nat, access: nat, estimates: seq<int>)
    requires Terminates(host, stop) && Collected(host, stop, k, access, estimates)
    ensures var b := BracketFrom(host, stop, access);
      Collected(host, stop, k + 1, b.spun + 3, estimates + [Estimate(host, b)])
  {
    NextSample(host, stop, k);
  }

  /** The array of estimates over `n` consecutive, disjoint spin brackets. */
  method CollectEstimates(host: Host, n: nat, ghost stop: nat -> nat) returns (estimates: array<int>)
    requires Terminates(host, stop)
    ensures fresh(estimates) && estimates[..] == Estimates(host, Brackets(host, stop, n))
  {
    estimates := new int[n](_ => 0);
    var access := 0;
    for k := 0 to n
      invariant Collected(host, stop, k, access, estimates[..k])
    {
      var estimate, next := TakeSample(host, access, stop);
      CollectNext(host, stop, k, access, estimates[..k]);
      ghost var longer := estimates[..k] + [estimate];
      assert Collected(host, stop, k + 1, next, longer);
      estimates[k] := estimate;
      access := next;
      assert estimates[..k + 1] == longer;
    }
    assert estimates[..n] == estimates[..];
  }

  function Calibrated(host: Host, bs: seq<Bracket>): int
    requires |bs| == NUM_SAMPLES
  {
    Sorted(Estimates(host, bs))[NUM_SAMPLES / 2]
  }

  lemma CalibratedIsWord(host: Host, bs: seq<Bracket>)
    requires |bs| == NUM_SAMPLES
    ensures 0 <= Calibrated(host, bs) <= U64_MAX
  {
    var es := Estimates(host, bs);
    SortedMember(es, NUM_SAMPLES / 2);
    var i :| 0 <= i < |es| && es[i] == Calibrated(host, bs);
    EstimatesAt(host, bs, i);
  }

  /** The calibrated frequency is the middle one of the five estimates in order. */
  method CalibrateFrequency(host: Host, ghost stop: nat -> nat) returns (hz: int)
    requires Terminates(host, stop)
    ensures hz == Calibrated(host, Brackets(host, stop, NUM_SAMPLES))
    ensures 0 <= hz <= U64_MAX
  {
    var estimates := CollectEstimates(host, NUM_SAMPLES, stop);
    ghost var bs := Brackets(host, stop, NUM_SAMPLES);
    SortInPlace(estimates);
    hz := estimates[NUM_SAMPLES / 2];
    CalibratedIsWord(host, bs);
  }

  // ----- accuracy against an ideal counter -----

  /** Ticks an ideal counter of `rate` hertz shows at time `t`, unbounded. */
  function Counter(rate: nat, offset: nat, t: nat): nat {
    rate * t / NANOS_PER_SECOND + offset
  }

  /** Access `i` happens at true time `at(i)`; both clocks show that time, each in its own 64-bit word. */
  ghost predicate Ideal(host: Host, at: nat -> nat, rate: nat, offset: nat) {
    && (forall i, j :: i <= j ==> at(i) <= at(j))
    && (forall i :: host.wall(i) == at(i) % TWO64 && host.tick(i) == Counter(rate, offset, at(i)) % TWO64)
  }

  /** The sample is short enough for neither clock to make a full turn. */
  predicate ShortEnough(at: nat -> nat, rate: nat, offset: nat, b: Bracket) {
    && at(b.spun + 2) < at(b.start) + TWO64
    && Counter(rate, offset, at(b.spun + 1)) < Counter(rate, offset, at(b.start + 1)) + TWO64
  }

  /** Wall time of the sample spent outside its tick bracket. */
  function Gap(at: nat -> nat, b: Bracket): int {
    at(b.start + 1) - at(b.start) + at(b.spun + 2) - at(b.spun + 1)
  }

  predicate Accurate(rate: nat, gap: int, hz: int) {
    && CALIBRATION_TIME_NS * (rate - 101) - rate * gap < CALIBRATION_TIME_NS * hz
    && hz < rate + 100
  }

  lemma WrapCancels(a: nat, b: nat)
    requires a <= b < a + TWO64
    ensures WrappingSub(b % TWO64, a % TWO64) == b - a
  {
    assert b == TWO64 * (b / TWO64) + b % TWO64;
    assert a == TWO64 * (a / TWO64) + a % TWO64;
  }

  lemma CounterSpan(rate: nat, offset: nat, a: nat, b: nat)
    requires a <= b
    ensures var ticks := Counter(rate, offset, b) - Counter(rate, offset, a);
      && 0 <= ticks
      && rate * (b - a) - NANOS_PER_SECOND < ticks * NANOS_PER_SECOND < rate * (b - a) + NANOS_PER_SECOND
  {
    assert rate * b == rate * a + rate * (b - a);
    assert 0 <= rate * (b - a);
  }

  lemma QuotientBounds(rate: u64, span: nat, ticks: nat, wall: nat)
    requires CALIBRATION_TIME_NS <= wall && span <= wall
    requires rate * span - NANOS_PER_SECOND < ticks * NANOS_PER_SECOND < rate * span + NANOS_PER_SECOND
    ensures Accurate(rate, wall - span, TryU64(ticks * NANOS_PER_SECOND / wall, U64_MAX))
  {
    var quotient := ticks * NANOS_PER_SECOND / wall;
    var gap := wall - span;
    DivBounds(ticks * NANOS_PER_SECOND, wall);
    assert rate * wall == rate * span + rate * gap;
    MulLe(span, wall, rate);
    assert (rate + 100) * wall == rate * wall + 100 * wall;
    QuotientIsLargest(ticks * NANOS_PER_SECOND, wall, rate + 100);
    // (rate - 101 - quotient) * wall < rate * gap, and wall may be lowered to the calibration time
    var lag := rate - 101 - quotient;
    assert lag * wall == rate * wall - 101 * wall - quotient * wall;
    assert lag * wall < rate * gap;
    assert 0 <= rate * gap;
    if 0 <= lag { MulLe(CALIBRATION_TIME_NS, wall, lag); }
    assert lag * CALIBRATION_TIME_NS < rate * gap || lag < 0;
  }

  /** The estimate's inputs are the true wall time and tick count of the sample. */
  lemma SampleIsTrue(host: Host, at: nat -> nat, rate: nat, offset: nat, b: Bracket)
    requires Ideal(host, at, rate, offset) && ShortEnough(at, rate, offset, b) && b.start + 2 <= b.spun
    ensures WallElapsed(host, b.start, b.spun) == at(b.spun) - at(b.start)
    ensures WallElapsed(host, b.start, b.spun + 2) == at(b.spun + 2) - at(b.start)
    ensures WrappingSub(host.tick(b.spun + 1), host.tick(b.start + 1))
         == Counter(rate, offset, at(b.spun + 1)) - Counter(rate, offset, at(b.start + 1))
  {
    WrapCancels(at(b.start), at(b.spun));
    WrapCancels(at(b.start), at(b.spun + 2));
    CounterSpan(rate, offset, at(b.start + 1), at(b.spun + 1));
    WrapCancels(Counter(rate, offset, at(b.start + 1)), Counter(rate, offset, at(b.spun + 1)));
  }

  /** The estimate is the rounded-down rate of the bracket's ticks per second of the wall time around it, as far as that
      fits the word, and zero if the wall clock did not move. */
  lemma EstimateIsRate(host: Host, b: Bracket)
    ensures var ticks := (host.tick(b.spun + 1) - host.tick(b.start + 1)) % TWO64;
      var wall := (host.wall(b.spun + 2) - host.wall(b.start)) % TWO64;
      var hz := Estimate(host, b);
      if wall == 0 then hz == 0
      else hz * wall <= ticks * 1_000_000_000 && (ticks * 1_000_000_000 < (hz + 1) * wall || hz == U64_MAX)
  {
    var ticks := WrappingSub(host.tick(b.spun + 1), host.tick(b.start + 1));
    var wall := WallElapsed(host, b.start, b.spun + 2);
    if wall != 0 {
      QuotientIsLargest(ticks * NANOS_PER_SECOND, wall, Estimate(host, b));
      QuotientIsLargest(ticks * NANOS_PER_SECOND, wall, Estimate(host, b) + 1);
    }
  }

  lemma EstimateIs(host: Host, b: Bracket, ticks: nat, wall: nat)
    requires WrappingSub(host.tick(b.spun + 1), host.tick(b.start + 1)) == ticks
    requires 0 < wall == WallElapsed(host, b.start, b.spun + 2)
    ensures Estimate(host, b) == TryU64(ticks * NANOS_PER_SECOND / wall, U64_MAX)
  {
  }

  /** Each estimate is within 100 Hz above the true rate and below it by little more than the share of the gap. */
  lemma EstimateAccuracy(host: Host, at: nat -> nat, rate: u64, offset: nat, b: Bracket)
    requires Ideal(host, at, rate, offset) && ShortEnough(at, rate, offset, b)
    requires b.start + 2 <= b.spun && CALIBRATION_TIME_NS <= WallElapsed(host, b.start, b.spun)
    ensures Accurate(rate, Gap(at, b), Estimate(host, b))
  {
    var w0, a, z, w1 := at(b.start), at(b.start + 1), at(b.spun + 1), at(b.spun + 2);
    SampleIsTrue(host, at, rate, offset, b);
    CounterSpan(rate, offset, a, z);
    var ticks, wall := Counter(rate, offset, z) - Counter(rate, offset, a), w1 - w0;
    EstimateIs(host, b, ticks, wall);
    assert Gap(at, b) == wall - (z - a);
    QuotientBounds(rate, z - a, ticks, wall);
  }

  /** Every sample the loop takes has spun for at least the calibration time. */
  lemma {:induction false} BracketsWellFormed(host: Host, stop: nat -> nat, n: nat, i: nat)
    requires Terminates(host, stop) && i < n
    ensures EndsFirst(host, Brackets(host, stop, n)[i])
    ensures Brackets(host, stop, n)[i].start == if i == 0 then 0 else Brackets(host, stop, n)[i - 1].spun + 3
  {
    if i == n - 1 {
    } else {
      BracketsWellFormed(host, stop, n - 1, i);
    }
  }

  function Hit(x: int, m: int): nat {
    if x <= m then 1 else 0
  }

  lemma CountStep(s: seq<int>)
    requires s != []
    ensures forall m :: CountAtMost(s, m) == Hit(s[0], m) + CountAtMost(s[1..], m)
  {
  }

  lemma CountOfFive(s: seq<int>, m: int)
    requires |s| == 5
    ensures CountAtMost(s, m) == Hit(s[0], m) + Hit(s[1], m) + Hit(s[2], m) + Hit(s[3], m) + Hit(s[4], m)
  {
    assert s == [s[0]] + ([s[1]] + ([s[2]] + ([s[3]] + ([s[4]] + []))));
    CountStep(s);
    CountStep(s[1..]);
    CountStep(s[2..]);
    CountStep(s[3..]);
    CountStep(s[4..]);
    assert s[1..][1..] == s[2..] && s[2..][1..] == s[3..] && s[3..][1..] == s[4..] && s[4..][1..] == [];
  }

  /** The median of five lies between bounds that hold any three of them, whatever the other two are. */
  lemma ThreeOfFivePinMedian(s: seq<int>, lo: int, hi: int, i: nat, j: nat, k: nat)
    requires |s| == 5 && i < j < k < 5
    requires lo <= s[i] <= hi && lo <= s[j] <= hi && lo <= s[k] <= hi
    ensures lo <= Sorted(s)[2] <= hi
  {
    CountOfFive(s, hi);
    CountOfFive(s, lo - 1);
    Rank(s, hi, 2);
    Rank(s, lo - 1, 2);
  }

  lemma AccurateIsInterval(rate: nat, gap: nat, lo: int, hz: int, hi: int)
    requires Accurate(rate, gap, lo) && Accurate(rate, gap, hi) && lo <= hz <= hi
    ensures Accurate(rate, gap, hz)
  {
  }

  lemma AccuracyLoosens(rate: nat, gap: int, bound: int, hz: int)
    requires gap <= bound && Accurate(rate, gap, hz)
    ensures Accurate(rate, bound, hz)
  {
    assert rate * bound == rate * gap + rate * (bound - gap);
    assert 0 <= rate * (bound - gap);
  }

  /** A short sample that spun long enough and kept the wall time outside its tick bracket within `bound`. */
  predicate GoodSample(host: Host, at: nat -> nat, rate: nat, offset: nat, bound: nat, b: Bracket) {
    && b.start + 2 <= b.spun && CALIBRATION_TIME_NS <= WallElapsed(host, b.start, b.spun)
    && ShortEnough(at, rate, offset, b)
    && Gap(at, b) <= bound
  }

  lemma SampleAccuracy(host: Host, at: nat -> nat, rate: u64, offset: nat, bound: nat, bs: seq<Bracket>, i: nat)
    requires i < |bs|
    requires Ideal(host, at, rate, offset) && GoodSample(host, at, rate, offset, bound, bs[i])
    ensures Accurate(rate, bound, Estimates(host, bs)[i])
  {
    EstimatesAt(host, bs, i);
    EstimateAccuracy(host, at, rate, offset, bs[i]);
    AccuracyLoosens(rate, Gap(at, bs[i]), bound, Estimate(host, bs[i]));
  }

  function Least(a: int, b: int, c: int): (m: int)
    ensures m <= a && m <= b && m <= c && (m == a || m == b || m == c)
  {
    if a <= b && a <= c then a else if b <= c then b else c
  }

  lemma MedianIsAccurate(rate: nat, bound: nat, es: seq<int>, i: nat, j: nat, k: nat)
    requires |es| == NUM_SAMPLES && i < j < k < NUM_SAMPLES
    requires Accurate(rate, bound, es[i]) && Accurate(rate, bound, es[j]) && Accurate(rate, bound, es[k])
    ensures Accurate(rate, bound, Sorted(es)[NUM_SAMPLES / 2])
  {
    var lo, hi := Least(es[i], es[j], es[k]), -Least(-es[i], -es[j], -es[k]);
    ThreeOfFivePinMedian(es, lo, hi, i, j, k);
    AccurateIsInterval(rate, bound, lo, Sorted(es)[2], hi);
  }

  /** If any three of the five samples are good, the calibrated frequency is accurate, whatever the other two are. */
  lemma MedianAccuracy(host: Host, at: nat -> nat, rate: u64, offset: nat, bound: nat,
                       bs: seq<Bracket>, i: nat, j: nat, k: nat)
    requires Ideal(host, at, rate, offset)
    requires |bs| == NUM_SAMPLES && i < j < k < NUM_SAMPLES
    requires GoodSample(host, at, rate, offset, bound, bs[i])
    requires GoodSample(host, at, rate, offset, bound, bs[j])
    requires GoodSample(host, at, rate, offset, bound, bs[k])
    ensures Accurate(rate, bound, Calibrated(host, bs))
  {
    var es := Estimates(host, bs);
    SampleAccuracy(host, at, rate, offset, bound, bs, i);
    SampleAccuracy(host, at, rate, offset, bound, bs, j);
    SampleAccuracy(host, at, rate, offset, bound, bs, k);
    MedianIsAccurate(rate, bound, es, i, j, k);
  }

  /** The same for the five samples the loop actually takes, each of which has spun long enough. */
  lemma CalibrationAccuracy(host: Host, stop: nat -> nat, at: nat -> nat, rate: u64, offset: nat, bound: nat,
                            bs: seq<Bracket>, i: nat, j: nat, k: nat)
    requires Terminates(host, stop) && Ideal(host, at, rate, offset)
    requires bs == Brackets(host, stop, NUM_SAMPLES) && i < j < k < NUM_SAMPLES
    requires ShortEnough(at, rate, offset, bs[i]) && Gap(at, bs[i]) <= bound
    requires ShortEnough(at, rate, offset, bs[j]) && Gap(at, bs[j]) <= bound
    requires ShortEnough(at, rate, offset, bs[k]) && Gap(at, bs[k]) <= bound
    ensures Accurate(rate, bound, Calibrated(host, bs))
  {
    BracketsWellFormed(host, stop, NUM_SAMPLES, i);
    BracketsWellFormed(host, stop, NUM_SAMPLES, j);
    BracketsWellFormed(host, stop, NUM_SAMPLES, k);
    MedianAccuracy(host, at, rate, offset, bound, bs, i, j, k);
  }

  lemma CounterAdvance(rate: u64, offset: nat, a: nat, b: nat)
    requires a <= b <= a + CALIBRATION_TIME_NS
    ensures Counter(rate, offset, b) < Counter(rate, offset, a) + TWO64
  {
    CounterSpan(rate, offset, a, b);
    MulLe(b - a, CALIBRATION_TIME_NS, rate);
  }

  /** Such hosts exist for every rate and offset: with one access every microsecond the spin ends, and a sample of any
      start has a gap of 2 000 ns. */
  lemma SteadyHost(rate: u64, offset: nat) returns (host: Host, stop: nat -> nat, at: nat -> nat)
    ensures Terminates(host, stop) && Ideal(host, at, rate, offset)
    ensures forall b: Bracket | b.start + 2 <= b.spun <= stop(b.start) ::
              ShortEnough(at, rate, offset, b) && Gap(at, b) == 2_000
  {
    at := i => i * 1_000;
    stop := start => start + 10_000;
    host := Host((i: nat) => i * 1_000 % TWO64, (i: nat) => Counter(rate, offset, i * 1_000) % TWO64);
    forall start: nat
      ensures CALIBRATION_TIME_NS <= WallElapsed(host, start, stop(start))
    {
      WrapCancels(at(start), at(stop(start)));
    }
    forall b: Bracket | b.start + 2 <= b.spun <= stop(b.start)
      ensures ShortEnough(at, rate, offset, b)
    {
      CounterAdvance(rate, offset, at(b.start + 1), at(b.spun + 1));
    }
  }
}
