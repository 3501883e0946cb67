/** The error of a converted duration, from the calibrated frequency through the scale to the shift. */
module Accuracy {
  import opened Words
  import opened Q32
  import Calibration
  import ScaleCache

  /** `nanos` is within `ticks * 1e9 * error / (freq * rate) + ticks / 2^32 + 1` of the true `ticks * 1e9 / rate`,
      stated with every term multiplied by `freq * rate * 2^32`. */
  predicate WithinError(nanos: nat, ticks: nat, freq: nat, rate: nat, error: nat) {
    Abs(nanos * (freq * rate) - ticks * NANOS_PER_SECOND * freq) * TWO32
    <= ticks * NANOS_PER_SECOND * error * TWO32 + ticks * (freq * rate) + (freq * rate) * TWO32
  }

  lemma AgainstOwnFrequency(freq: u64, ticks: u64)
    requires 0 < freq
    ensures var off := WideNanos(Scale(freq), ticks) * freq - ticks * NANOS_PER_SECOND;
      -(ticks * freq + freq * TWO32) <= off * TWO32 <= 0
  {
    var q := Scale(freq);
    var wide := WideNanos(q, ticks);
    ScaleIsQuotient(freq);
    DivBounds(ticks * q, TWO32);
    MulLe(wide * TWO32, ticks * q, freq);
    MulLe(ticks * q, wide * TWO32 + TWO32, freq);
    assert ticks * q * freq == q * freq * ticks;
    MulLe(q * freq, NANOS_PER_SECOND_Q32, ticks);
    MulLe(NANOS_PER_SECOND_Q32, q * freq + freq, ticks);
    assert (q * freq + freq) * ticks == q * freq * ticks + ticks * freq;
    assert wide * TWO32 * freq == wide * freq * TWO32;
    assert (wide * TWO32 + TWO32) * freq == wide * freq * TWO32 + freq * TWO32;
  }

  lemma ScaleBounds(off: int, ticks: nat, freq: nat, rate: nat)
    requires -(ticks * freq + freq * TWO32) <= off * TWO32 <= 0
    ensures -(ticks * (freq * rate) + (freq * rate) * TWO32) <= off * rate * TWO32 <= 0
  {
    var slack := ticks * freq + freq * TWO32;
    MulLe(-slack, off * TWO32, rate);
    MulLe(off * TWO32, 0, rate);
    assert slack * rate == ticks * (freq * rate) + (freq * rate) * TWO32;
    assert off * TWO32 * rate == off * rate * TWO32;
  }

  lemma SplitError(nanos: nat, span: nat, freq: nat, rate: nat)
    ensures nanos * (freq * rate) - span * freq == (nanos * freq - span) * rate + span * (rate - freq)
  {
    assert nanos * (freq * rate) == nanos * freq * rate;
  }

  lemma CombineErrors(nanos: nat, ticks: nat, span: nat, freq: nat, rate: nat, error: nat)
    requires Abs(freq - rate) <= error
    requires -(ticks * freq + freq * TWO32) <= (nanos * freq - span) * TWO32 <= 0
    ensures Abs(nanos * (freq * rate) - span * freq) * TWO32
         <= span * error * TWO32 + ticks * (freq * rate) + (freq * rate) * TWO32
  {
    var off, slip := (nanos * freq - span) * rate, span * (rate - freq);
    SplitError(nanos, span, freq, rate);
    assert -(ticks * (freq * rate) + (freq * rate) * TWO32) <= off * TWO32 <= 0 by {
      ScaleBounds(nanos * freq - span, ticks, freq, rate);
    }
    assert Abs(slip) <= span * error by {
      MulLe(rate - freq, error, span);
      MulLe(freq - rate, error, span);
    }
  }

  /** A conversion under a scale derived from a frequency within `error` of the true rate. */
  lemma ConversionError(freq: u64, rate: nat, error: nat, ticks: u64)
    requires 0 < freq && 0 < rate && Abs(freq - rate) <= error
    requires !Saturates(Scale(freq), ticks)
    ensures WithinError(Nanos(Scale(freq), ticks), ticks, freq, rate, error)
  {
    AgainstOwnFrequency(freq, ticks);
    CombineErrors(Nanos(Scale(freq), ticks), ticks, ticks * NANOS_PER_SECOND, freq, rate, error);
  }

  /** The frequency error an accurate calibration allows. */
  function CalibrationError(rate: nat, gap: nat): nat {
    CeilDiv(rate * gap, Calibration.CALIBRATION_TIME_NS) + 101
  }

  lemma AccurateWithin(rate: nat, gap: nat, hz: int)
    requires Calibration.Accurate(rate, gap, hz)
    ensures Abs(hz - rate) <= CalibrationError(rate, gap)
  {
    var least := Calibration.CALIBRATION_TIME_NS;
    CeilingIsSmallest(rate * gap, least, CeilDiv(rate * gap, least));
  }

  /** Calibration, scale and shift composed: three good samples of five bound the error of every unsaturated
      conversion. */
  lemma CalibratedConversionError(host: Calibration.Host, at: nat -> nat, rate: u64, offset: nat, gap: nat,
                                  bs: seq<Calibration.Bracket>, i: nat, j: nat, k: nat, ticks: u64)
    requires Calibration.Ideal(host, at, rate, offset) && 0 < rate
    requires |bs| == Calibration.NUM_SAMPLES && i < j < k < Calibration.NUM_SAMPLES
    requires Calibration.GoodSample(host, at, rate, offset, gap, bs[i])
    requires Calibration.GoodSample(host, at, rate, offset, gap, bs[j])
    requires Calibration.GoodSample(host, at, rate, offset, gap, bs[k])
    ensures var freq := Calibration.Calibrated(host, bs);
      && 0 <= freq <= U64_MAX
      && (CalibrationError(rate, gap) < rate ==> 0 < freq)
      && (0 < freq && !Saturates(Scale(freq), ticks) ==>
            WithinError(Nanos(Scale(freq), ticks), ticks, freq, rate, CalibrationError(rate, gap)))
  {
    Calibration.CalibratedIsWord(host, bs);
    var freq := Calibration.Calibrated(host, bs);
    Calibration.MedianAccuracy(host, at, rate, offset, gap, bs, i, j, k);
    AccurateWithin(rate, gap, freq);
    if 0 < freq && !Saturates(Scale(freq), ticks) {
      ConversionError(freq, rate, CalibrationError(rate, gap), ticks);
    }
  }

  ghost predicate AllWithin(q: u64, freq: nat, rate: nat, error: nat) {
    forall ticks: u64 :: !Saturates(q, ticks) ==> WithinError(Nanos(q, ticks), ticks, freq, rate, error)
  }

  /** `q` is the scale of a frequency read in the run, and converts every tick count within the error for it. */
  ghost predicate ConvertsWithin(q: u64, es: seq<ScaleCache.Event>, rate: nat, error: nat) {
    exists f: u64 :: 0 < f && ScaleCache.WasRead(es, f) && Scale(f) == q && AllWithin(q, f, rate, error)
  }

  lemma OwnScaleWithin(freq: u64, rate: nat, error: nat)
    requires 0 < freq && 0 < rate && Abs(freq - rate) <= error
    ensures AllWithin(Scale(freq), freq, rate, error)
  {
    forall ticks: u64 | !Saturates(Scale(freq), ticks)
      ensures WithinError(Nanos(Scale(freq), ticks), ticks, freq, rate, error)
    {
      ConversionError(freq, rate, error, ticks);
    }
  }

  /** Over every interleaving of conversions and recalibrations, on any number of threads: while every frequency read is
      within `error` of the true rate, so is every conversion made in the run and the scale it leaves behind. */
  lemma EveryConversionWithin(b: ScaleCache.Build, threads: nat, es: seq<ScaleCache.Event>, rate: nat, error: nat)
    requires ScaleCache.Run(b, threads, es).Some? && ScaleCache.AllRepresentable(es) && 0 < rate
    requires forall f: u64 | 0 < f && ScaleCache.WasRead(es, f) :: Abs(f - rate) <= error
    ensures var s := ScaleCache.Run(b, threads, es).value;
      && (forall q | q in s.returned :: ConvertsWithin(q, es, rate, error))
      && (s.word != 0 ==> ConvertsWithin(s.word, es, rate, error))
  {
    ScaleCache.CacheProtocol(b, threads, es);
    forall q: u64 | ScaleCache.ScaleRead(q, es)
      ensures ConvertsWithin(q, es, rate, error)
    {
      var f: u64 :| 0 < f && ScaleCache.WasRead(es, f) && Scale(f) == q;
      OwnScaleWithin(f, rate, error);
    }
  }
}
