/** The detector run on this crate's own clock: counters out of step by some ticks, converted under one scale or
    several. */
module TachDetector {
  import opened Words
  import opened Q32
  import opened Instants
  import opened Tallies
  import opened Detector
  import opened Ceiling
  import PerThread
  import Recalibration

  /** `now_as_u64` for a counter reading `raw`: nanoseconds since the anchor, zero if the reading is before it. */
  function NowAsU64(q: u64, anchor: u64, raw: u64): u64 {
    TryU64(AsNanos(Instant(raw).DurationSince(q, Instant(anchor))), U64_MAX)
  }

  /** Narrowing never saturates: the result is the converted distance from the anchor. */
  lemma NowIsNanos(q: u64, anchor: u64, raw: u64)
    ensures NowAsU64(q, anchor, raw) == Nanos(q, SaturatingSub(raw, anchor))
    ensures NowAsU64(q, anchor, raw) == AsNanos(Instant(raw).DurationSince(q, Instant(anchor)))
  {
    if anchor <= raw {
      SinceLaterTicks(q, Instant(anchor), Instant(raw));
    }
  }

  /** What `k` ticks last under the scale `q`, rounded up. */
  function LengthOf(k: nat, q: u64): nat {
    CeilDiv(k * q, TWO32)
  }

  /** The clock is monotone in the counter, and readings `k` ticks apart are at most `k` ticks' nanoseconds apart. */
  lemma NowMonotoneAndNear(q: u64, anchor: u64, a: u64, b: u64, k: nat)
    requires a <= b
    ensures NowAsU64(q, anchor, a) <= NowAsU64(q, anchor, b)
    ensures b - a <= k ==> NowAsU64(q, anchor, b) - NowAsU64(q, anchor, a) <= LengthOf(k, q)
  {
    var x, y := SaturatingSub(a, anchor), SaturatingSub(b, anchor);
    NowIsNanos(q, anchor, a);
    NowIsNanos(q, anchor, b);
    NanosMonotone(q, x, y);
    NanosLipschitz(q, x, y);
    if b - a <= k {
      MulLe(y - x, k, q);
      QuotientMonotone((y - x) * q + TWO32 - 1, k * q + TWO32 - 1, TWO32);
    }
  }

  lemma NowMonotoneInScale(q: u64, p: u64, anchor: u64, raw: u64)
    requires q <= p
    ensures NowAsU64(q, anchor, raw) <= NowAsU64(p, anchor, raw)
  {
    NowIsNanos(q, anchor, raw);
    NowIsNanos(p, anchor, raw);
    NanosMonotoneInScale(q, p, SaturatingSub(raw, anchor));
  }

  /** What the band of scales from `low` to `high` differs by, `ticks` ticks from the anchor. */
  function BandCost(low: u64, high: u64, ticks: nat): nat
    requires low <= high
  {
    CeilDiv(Recalibration.ChangeCost(high, low, ticks), TWO32)
  }

  lemma NowAcrossBand(low: u64, high: u64, anchor: u64, raw: u64, span: nat)
    requires low <= high && SaturatingSub(raw, anchor) <= span
    ensures NowAsU64(high, anchor, raw) - NowAsU64(low, anchor, raw) <= BandCost(low, high, span)
  {
    var ticks := SaturatingSub(raw, anchor);
    NowIsNanos(low, anchor, raw);
    NowIsNanos(high, anchor, raw);
    Recalibration.ScaleChangeCost(high, low, ticks);
    MulLe(ticks, span, high - low);
    QuotientMonotone(Recalibration.ChangeCost(high, low, ticks) + TWO32 - 1,
                     Recalibration.ChangeCost(high, low, span) + TWO32 - 1, TWO32);
  }

  /** Where each reading comes from: the global counter when it was taken, the thread's own counter, the scale
      in use. */
  datatype Source = Source(global: u64, raw: u64, scale: u64)

  predicate InBand(source: Source, anchor: u64, low: u64, high: u64, k: nat, span: nat) {
    && Abs(source.raw as int - source.global) <= k
    && SaturatingSub(source.global, anchor) <= span
    && low <= source.scale <= high
  }

  /** Every reading of `es` is this clock's, from a counter within `k` ticks of a global one that never goes back and
      under a scale of the band; the global counter stays within `span` ticks of the anchor. */
  ghost predicate ReadsCounters(es: seq<Event>, sources: seq<Source>, anchor: u64, low: u64, high: u64,
                                k: nat, span: nat)
  {
    && |sources| == |es|
    && (forall i, j | 0 <= i < j < |es| :: sources[i].global <= sources[j].global)
    && (forall i | 0 <= i < |es| :: InBand(sources[i], anchor, low, high, k, span))
    && (forall i | 0 <= i < |es| && (es[i].First? || es[i].Second?) ::
          es[i].value == NowAsU64(sources[i].scale, anchor, sources[i].raw))
  }

  function Times(low: u64, anchor: u64, sources: seq<Source>): (clock: seq<nat>)
    ensures |clock| == |sources| && forall i | 0 <= i < |clock| :: clock[i] == NowAsU64(low, anchor, sources[i].global)
  {
    seq(|sources|, i requires 0 <= i < |sources| => NowAsU64(low, anchor, sources[i].global))
  }

  /** The length of `k` ticks at both ends of the band, and what the band differs by. */
  function BandCeiling(low: u64, high: u64, k: nat, span: nat): nat
    requires low <= high
  {
    LengthOf(k, low) + LengthOf(k, high) + BandCost(low, high, span)
  }

  lemma OneScaleCostsNothing(q: u64, span: nat)
    ensures BandCost(q, q, span) == 0 && LengthOf(0, q) == 0 && BandCeiling(q, q, 0, span) == 0
  {
    assert Recalibration.ChangeCost(q, q, span) == 0;
  }

  function BandSlop(low: u64, high: u64, k: nat, span: nat): Slop
    requires low <= high
  {
    Slop(LengthOf(k, low), LengthOf(k, high) + BandCost(low, high, span))
  }

  /** One reading against the global counter converted under the band's lowest scale. */
  lemma SourceNear(source: Source, anchor: u64, low: u64, high: u64, k: nat, span: nat)
    requires low <= high && InBand(source, anchor, low, high, k, span)
    ensures var value, now := NowAsU64(source.scale, anchor, source.raw), NowAsU64(low, anchor, source.global);
      && value <= now + BandSlop(low, high, k, span).ahead
      && now <= value + BandSlop(low, high, k, span).behind
  {
    NowMonotoneInScale(low, source.scale, anchor, source.raw);
    NowMonotoneInScale(source.scale, high, anchor, source.raw);
    NowAcrossBand(low, high, anchor, source.global, span);
    if source.raw <= source.global {
      NowMonotoneAndNear(low, anchor, source.raw, source.global, k);
      NowMonotoneAndNear(high, anchor, source.raw, source.global, k);
    } else {
      NowMonotoneAndNear(low, anchor, source.global, source.raw, k);
      NowMonotoneAndNear(high, anchor, source.global, source.raw, k);
    }
  }

  /** On any number of threads whose counters stay within `k` ticks of a global one, while recalibration moves the scale
      within a band, the reported worst violation is at most the bracket, the length of `k` ticks under both ends of the
      band, and what the band differs by over the run. */
  lemma RecalibratedCeiling(threads: nat, es: seq<Event>, sources: seq<Source>, anchor: u64, low: u64, high: u64,
                            k: nat, span: nat)
    requires Run(threads, es).Some? && low <= high && ReadsCounters(es, sources, anchor, low, high, k, span)
    ensures Joined(TalliesOf(Run(threads, es).value)).total.maxViolation
         <= BRACKET_NS + BandCeiling(low, high, k, span)
  {
    var clock, slop := Times(low, anchor, sources), BandSlop(low, high, k, span);
    forall i, j | 0 <= i < j < |clock|
      ensures clock[i] <= clock[j]
    {
      NowMonotoneAndNear(low, anchor, sources[i].global, sources[j].global, 0);
    }
    forall i | 0 <= i < |es|
      ensures ReadingNear(es[i], clock[i], slop)
    {
      SourceNear(sources[i], anchor, low, high, k, span);
    }
    BracketCeiling(threads, es, clock, slop);
  }

  /** Under one scale the band costs nothing: the bracket plus twice the length of `k` ticks, however long the run. */
  lemma CounterSlopCeiling(threads: nat, es: seq<Event>, sources: seq<Source>, anchor: u64, q: u64, k: nat, span: nat)
    requires Run(threads, es).Some? && ReadsCounters(es, sources, anchor, q, q, k, span)
    ensures Joined(TalliesOf(Run(threads, es).value)).total.maxViolation <= BRACKET_NS + 2 * LengthOf(k, q)
  {
    RecalibratedCeiling(threads, es, sources, anchor, q, q, k, span);
    assert Recalibration.ChangeCost(q, q, span) == 0;
  }

  // ----- the single-thread measurement -----

  /** The reads of one thread, which may move between counters. */
  ghost predicate ReadsAlone(vals: seq<u64>, sources: seq<Source>, anchor: u64, low: u64, high: u64, k: nat, span: nat)
  {
    && |vals| == |sources|
    && (forall i, j | 0 <= i < j < |sources| :: sources[i].global <= sources[j].global)
    && (forall i | 0 <= i < |sources| :: InBand(sources[i], anchor, low, high, k, span))
    && (forall i | 0 <= i < |vals| :: vals[i] == NowAsU64(sources[i].scale, anchor, sources[i].raw))
  }

  lemma FallWithinBand(a: Source, b: Source, anchor: u64, low: u64, high: u64, k: nat, span: nat)
    requires low <= high && a.global <= b.global
    requires InBand(a, anchor, low, high, k, span) && InBand(b, anchor, low, high, k, span)
    ensures NowAsU64(a.scale, anchor, a.raw) - NowAsU64(b.scale, anchor, b.raw) <= BandCeiling(low, high, k, span)
  {
    SourceNear(a, anchor, low, high, k, span);
    SourceNear(b, anchor, low, high, k, span);
    NowMonotoneAndNear(low, anchor, a.global, b.global, 0);
  }

  /** What the single-thread measurement reports of this clock: no larger fall than the counters and the band allow, and
      under one scale and one counter nothing at all. */
  lemma SingleThreadCeiling(vals: seq<u64>, sources: seq<Source>, anchor: u64, low: u64, high: u64, k: nat, span: nat,
                            m: nat)
    requires low <= high && ReadsAlone(vals, sources, anchor, low, high, k, span)
    requires PerThread.IsLargestFall(vals, m)
    ensures m <= BandCeiling(low, high, k, span)
    ensures k == 0 && low == high ==> m == 0 && PerThread.CountBelowEarlier(vals) == 0
  {
    var bound := BandCeiling(low, high, k, span);
    forall i: nat, j: nat | i < j < |vals|
      ensures PerThread.Fall(vals, i, j) <= bound
    {
      FallWithinBand(sources[i], sources[j], anchor, low, high, k, span);
    }
    if k == 0 && low == high {
      OneScaleCostsNothing(low, span);
      PerThread.CleanExactlyWhenMonotone(vals, m);
    }
  }
}
