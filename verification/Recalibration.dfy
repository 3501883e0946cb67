/** One instant read over a whole run in which the counter advances and the scale is replaced. */
module Recalibration {
  import opened Words
  import opened Q32
  import opened Instants
  import ScaleCache

  datatype Event = Advance(ticks: nat) | Replace(scale: u64)

  /** Ticks the true counter has gained since the run began. */
  function Gained(run: seq<Event>): nat {
    if run == [] then 0
    else
      var before := Gained(run[..|run| - 1]);
      match run[|run| - 1]
      case Advance(ticks) => before + ticks
      case Replace(_) => before
  }

  function ScaleAfter(first: u64, run: seq<Event>): u64 {
    if run == [] then first
    else
      match run[|run| - 1]
      case Advance(_) => ScaleAfter(first, run[..|run| - 1])
      case Replace(scale) => scale
  }

  /** `start.elapsed()` at the end of `run`, for a start sampled when the true counter stood at `start`. */
  function ReadingAfter(start: nat, first: u64, run: seq<Event>): nat {
    AsNanos(Instant(start % TWO64).Elapsed(ScaleAfter(first, run), (start + Gained(run)) % TWO64))
  }

  lemma {:induction false} GainedMonotone(run: seq<Event>, i: nat)
    requires i <= |run|
    ensures Gained(run[..i]) <= Gained(run)
  {
    if i < |run| {
      var init := run[..|run| - 1];
      GainedMonotone(init, i);
      assert init[..i] == run[..i];
    } else {
      assert run[..i] == run;
    }
  }

  lemma ReadingIsNanos(start: nat, first: u64, run: seq<Event>)
    requires Gained(run) < TWO64
    ensures ReadingAfter(start, first, run) == Nanos(ScaleAfter(first, run), Gained(run))
  {
    ElapsedAcrossWrap(ScaleAfter(first, run), start, start + Gained(run));
    FastPathAgrees(ScaleAfter(first, run), Gained(run));
  }

  /** What lowering the scale from `p` to `q` takes off `ticks` ticks, in units of 2^-32 ns. */
  function ChangeCost(p: u64, q: u64, ticks: nat): nat
    requires q <= p
  {
    ticks * (p - q)
  }

  lemma ScaleChangeCost(p: u64, q: u64, ticks: u64)
    requires q <= p
    ensures Nanos(p, ticks) - Nanos(q, ticks) <= CeilDiv(ChangeCost(p, q, ticks), TWO32)
    ensures !Saturates(p, ticks) ==> ChangeCost(p, q, ticks) / TWO32 <= Nanos(p, ticks) - Nanos(q, ticks)
  {
    var x, y := ticks * q, ChangeCost(p, q, ticks);
    assert ticks * p == x + y;
    assert x / TWO32 + y / TWO32 <= (x + y) / TWO32 <= x / TWO32 + CeilDiv(y, TWO32);
  }

  lemma NanosAcrossScales(p: u64, q: u64, a: u64, b: u64)
    requires a <= b
    ensures p <= q ==> Nanos(p, a) <= Nanos(q, b)
    ensures q < p ==> Nanos(p, a) - Nanos(q, b) <= CeilDiv(ChangeCost(p, q, a), TWO32)
  {
    NanosMonotone(q, a, b);
    if p <= q {
      NanosMonotoneInScale(p, q, a);
    } else {
      ScaleChangeCost(p, q, a);
    }
  }

  /** Between an earlier and a later read a reading falls only when the scale fell, and then by at most the cost of
      that change on the ticks first read. */
  lemma ReadingsFallOnlyWithScale(start: nat, first: u64, run: seq<Event>, i: nat)
    requires i <= |run| && Gained(run) < TWO64
    ensures var p, q := ScaleAfter(first, run[..i]), ScaleAfter(first, run);
      var earlier, later := ReadingAfter(start, first, run[..i]), ReadingAfter(start, first, run);
      && (p <= q ==> earlier <= later)
      && (q < p ==> earlier - later <= CeilDiv(ChangeCost(p, q, Gained(run[..i])), TWO32))
  {
    GainedMonotone(run, i);
    var p, q := ScaleAfter(first, run[..i]), ScaleAfter(first, run);
    ReadingIsNanos(start, first, run[..i]);
    ReadingIsNanos(start, first, run);
    NanosAcrossScales(p, q, Gained(run[..i]), Gained(run));
  }

  lemma {:induction false} SteadyScale(first: u64, run: seq<Event>, i: nat)
    requires i <= |run|
    requires forall k | i <= k < |run| :: run[k].Advance?
    ensures ScaleAfter(first, run[..i]) == ScaleAfter(first, run)
  {
    if i < |run| {
      var init := run[..|run| - 1];
      SteadyScale(first, init, i);
      assert init[..i] == run[..i];
    } else {
      assert run[..i] == run;
    }
  }

  /** With no replacement in between, readings from one start never go back. */
  lemma SteadyScaleNeverFalls(start: nat, first: u64, run: seq<Event>, i: nat)
    requires i <= |run| && Gained(run) < TWO64
    requires forall k | i <= k < |run| :: run[k].Advance?
    ensures ScaleAfter(first, run[..i]) == ScaleAfter(first, run)
    ensures ReadingAfter(start, first, run[..i]) <= ReadingAfter(start, first, run)
  {
    SteadyScale(first, run, i);
    ReadingsFallOnlyWithScale(start, first, run, i);
  }

  /** An advance adds its ticks, under the scale in use. */
  lemma ReadingAtAdvance(start: nat, first: u64, run: seq<Event>, ticks: nat)
    requires Gained(run) + ticks < TWO64
    ensures ReadingAfter(start, first, run + [Advance(ticks)]) == Nanos(ScaleAfter(first, run), Gained(run) + ticks)
    ensures ScaleAfter(first, run + [Advance(ticks)]) == ScaleAfter(first, run)
    ensures Gained(run + [Advance(ticks)]) == Gained(run) + ticks
  {
    var longer := run + [Advance(ticks)];
    assert longer[..|longer| - 1] == run;
    ReadingIsNanos(start, first, longer);
  }

  lemma ReadingAtReplacement(start: nat, first: u64, run: seq<Event>, scale: u64)
    requires Gained(run) < TWO64
    ensures ReadingAfter(start, first, run) == Nanos(ScaleAfter(first, run), Gained(run))
    ensures ReadingAfter(start, first, run + [Replace(scale)]) == Nanos(scale, Gained(run))
    ensures ScaleAfter(first, run + [Replace(scale)]) == scale && Gained(run + [Replace(scale)]) == Gained(run)
  {
    var longer := run + [Replace(scale)];
    assert longer[..|longer| - 1] == run;
    ReadingIsNanos(start, first, run);
    ReadingIsNanos(start, first, longer);
  }

  /** Replacing the scale by a smaller one, with the counter still, takes the reading back by the cost of the change to
      within one nanosecond, and so by at least one nanosecond once the cost reaches 2^32 units. */
  lemma ReplacementRewinds(start: nat, first: u64, run: seq<Event>, scale: u64)
    requires Gained(run) < TWO64
    requires scale <= ScaleAfter(first, run) && !Saturates(ScaleAfter(first, run), Gained(run))
    ensures var drop := ChangeCost(ScaleAfter(first, run), scale, Gained(run));
      var fall := ReadingAfter(start, first, run) - ReadingAfter(start, first, run + [Replace(scale)]);
      && drop / TWO32 <= fall <= CeilDiv(drop, TWO32)
      && (TWO32 <= drop ==> 0 < fall)
  {
    ReadingAtReplacement(start, first, run, scale);
    ScaleChangeCost(ScaleAfter(first, run), scale, Gained(run));
  }

  lemma FullTurnOfShift(scale: u64)
    ensures Nanos(scale, TWO32) == scale
  {
    assert TWO32 * scale / TWO32 == scale;
  }

  /** A later conversion under `q` is never below an earlier one under `p`, over all counter readings, exactly when the
      scale has not fallen. */
  lemma ConversionsNeverFallExactly(p: u64, q: u64)
    ensures (forall a: u64, b: u64 | a <= b :: Nanos(p, a) <= Nanos(q, b)) <==> p <= q
  {
    if p <= q {
      forall a: u64, b: u64 | a <= b
        ensures Nanos(p, a) <= Nanos(q, b)
      {
        NanosAcrossScales(p, q, a, b);
      }
    } else {
      FullTurnOfShift(p);
      FullTurnOfShift(q);
      assert Nanos(q, TWO32) < Nanos(p, TWO32);
    }
  }

  /** Any fall of the scale is seen: after 2^32 ticks a replacement of `p` by `q` takes the reading back by exactly
      `p - q` ns. */
  lemma ReadingGoesBack(start: nat, first: u64, p: u64, q: u64) returns (run: seq<Event>)
    requires q < p
    ensures run == [Replace(p), Advance(TWO32)]
    ensures ScaleAfter(first, run) == p && Gained(run) == TWO32
    ensures ScaleAfter(first, run + [Replace(q)]) == q && Gained(run + [Replace(q)]) == TWO32
    ensures ReadingAfter(start, first, run) - ReadingAfter(start, first, run + [Replace(q)]) == p - q
  {
    run := [Replace(p), Advance(TWO32)];
    assert run[..1] == [Replace(p)];
    assert Gained([Replace(p)]) == 0 && ScaleAfter(first, [Replace(p)]) == p;
    ReadingAtReplacement(start, first, run, q);
    FullTurnOfShift(p);
    FullTurnOfShift(q);
  }

  /** Over every run that reads under `p` and later, after any events, under `q`, the reading from one start has not
      fallen. */
  ghost predicate ReadingsHold(start: nat, first: u64, p: u64, q: u64) {
    forall run: seq<Event>, i: nat | i <= |run| && Gained(run) < TWO64 ::
      ScaleAfter(first, run[..i]) == p && ScaleAfter(first, run) == q ==>
        ReadingAfter(start, first, run[..i]) <= ReadingAfter(start, first, run)
  }

  /** Readings are mutually consistent across a change of scale exactly when the scale has not fallen. */
  lemma ReadingsHoldExactly(start: nat, first: u64, p: u64, q: u64)
    ensures ReadingsHold(start, first, p, q) <==> p <= q
  {
    if p <= q {
      forall run: seq<Event>, i: nat | i <= |run| && Gained(run) < TWO64
        && ScaleAfter(first, run[..i]) == p && ScaleAfter(first, run) == q
        ensures ReadingAfter(start, first, run[..i]) <= ReadingAfter(start, first, run)
      {
        ReadingsFallOnlyWithScale(start, first, run, i);
      }
    } else {
      var before := ReadingGoesBack(start, first, p, q);
      var run := before + [Replace(q)];
      assert run[..2] == before;
    }
  }

  // ----- readings under the shared cache -----

  lemma ScaleAntitone(slow: u64, fast: u64)
    requires 0 < slow <= fast
    ensures Scale(fast) <= Scale(slow)
  {
    ScaleIsQuotient(slow);
    ScaleIsQuotient(fast);
    MulLe(slow, fast, Scale(fast));
    QuotientIsLargest(NANOS_PER_SECOND_Q32, slow, Scale(fast));
  }

  lemma ScaleInBand(es: seq<ScaleCache.Event>, low: u64, high: u64, q: u64)
    requires ScaleCache.ScaleRead(q, es) && 0 < low
    requires forall f: u64 | 0 < f && ScaleCache.WasRead(es, f) :: low <= f <= high
    ensures low <= high && Scale(high) <= q <= Scale(low)
  {
    var f: u64 :| 0 < f && ScaleCache.WasRead(es, f) && Scale(f) == q;
    ScaleAntitone(low, f);
    ScaleAntitone(f, high);
  }

  /** Over any interleaving of conversions and recalibrations whose frequencies stay within a band, any conversion of at
      least as many ticks as another gives at most what the band's two scales differ on the fewer ticks less than it. */
  lemma ReadingsAcrossRun(build: ScaleCache.Build, threads: nat, es: seq<ScaleCache.Event>, low: u64, high: u64,
                          i: nat, j: nat, a: u64, b: u64)
    requires ScaleCache.Run(build, threads, es).Some? && a <= b
    requires 0 < low <= high <= NANOS_PER_SECOND_Q32
    requires forall f: u64 | 0 < f && ScaleCache.WasRead(es, f) :: low <= f <= high
    requires i < |ScaleCache.Run(build, threads, es).value.returned|
    requires j < |ScaleCache.Run(build, threads, es).value.returned|
    ensures Scale(high) <= Scale(low)
    ensures var returned := ScaleCache.Run(build, threads, es).value.returned;
      Nanos(returned[i], a) - Nanos(returned[j], b) <= CeilDiv(ChangeCost(Scale(low), Scale(high), a), TWO32)
  {
    forall k | 0 <= k < |es|
      ensures ScaleCache.Representable(es[k])
    {
      var e := es[k];
      if e.ReadFrequency? || e.Calibrated? || e.BackgroundCalibrated? {
        assert ScaleCache.Reads(e, e.freq) && ScaleCache.WasRead(es, e.freq);
      }
    }
    ScaleCache.CacheProtocol(build, threads, es);
    var returned := ScaleCache.Run(build, threads, es).value.returned;
    var p, q := returned[i], returned[j];
    ScaleInBand(es, low, high, p);
    ScaleInBand(es, low, high, q);
    NanosMonotoneInScale(p, Scale(low), a);
    NanosMonotoneInScale(Scale(high), q, b);
    NanosAcrossScales(Scale(low), Scale(high), a, b);
  }
}
