/** The Q32 reciprocal of a frequency and the multiply-and-shift conversions built on it. */
module Q32 {
  import opened Words

  const NANOS_PER_SECOND: nat := 1_000_000_000
  const NANOS_PER_SECOND_Q32: nat := 1_000_000_000 * 0x1_0000_0000

  /** The cached word for a counter of `freq` hertz. The division panics on zero, which callers rule out. */
  function Scale(freq: u64): u64
    requires 0 < freq
  {
    TryU64(NANOS_PER_SECOND_Q32 / freq, U64_MAX)
  }

  /** The shifted product before it is narrowed to 64 bits. */
  function WideNanos(q: u64, ticks: u64): nat {
    ticks * q / TWO32
  }

  predicate Saturates(q: u64, ticks: u64) {
    U64_MAX < WideNanos(q, ticks)
  }

  function Nanos(q: u64, ticks: u64): u64 {
    TryU64(WideNanos(q, ticks), U64_MAX)
  }

  /** The tick count of `nanos` nanoseconds, with no bound on either. */
  function IdealTicks(q: u64, nanos: nat): nat
    requires 0 < q
  {
    nanos * TWO32 / q
  }

  /** The narrowing never saturates, so the scale is the exact quotient; it is zero exactly above
      `NANOS_PER_SECOND_Q32`. */
  lemma ScaleIsQuotient(freq: u64)
    requires 0 < freq
    ensures Scale(freq) == NANOS_PER_SECOND_Q32 / freq
    ensures Scale(freq) * freq <= NANOS_PER_SECOND_Q32 < Scale(freq) * freq + freq
    ensures Scale(freq) == 0 <==> NANOS_PER_SECOND_Q32 < freq
    ensures Scale(freq) <= NANOS_PER_SECOND_Q32 <= U64_MAX
  {
    DivBounds(NANOS_PER_SECOND_Q32, freq);
    QuotientIsLargest(NANOS_PER_SECOND_Q32, freq, 1);
    QuotientIsLargest(NANOS_PER_SECOND_Q32, freq, NANOS_PER_SECOND_Q32 + 1);
    MulLe(1, freq, NANOS_PER_SECOND_Q32 + 1);
  }

  /** The 128-bit product of two 64-bit words cannot overflow. */
  lemma ProductFits(q: u64, ticks: u64)
    ensures ticks * q < TWO128
  {
    MulLe(ticks, U64_MAX, q);
    MulLe(q, U64_MAX, U64_MAX);
  }

  lemma NanosMonotone(q: u64, a: u64, b: u64)
    requires a <= b
    ensures WideNanos(q, a) <= WideNanos(q, b)
    ensures Nanos(q, a) <= Nanos(q, b)
  {
    MulLe(a, b, q);
    QuotientMonotone(a * q, b * q, TWO32);
  }

  lemma NanosMonotoneInScale(q: u64, p: u64, ticks: u64)
    requires q <= p
    ensures Nanos(q, ticks) <= Nanos(p, ticks)
  {
    MulLe(q, p, ticks);
    QuotientMonotone(ticks * q, ticks * p, TWO32);
  }

  /** Readings `k` ticks apart are at most the rounded-up length of `k` ticks apart in nanoseconds. */
  lemma NanosLipschitz(q: u64, a: u64, b: u64)
    requires a <= b
    ensures Nanos(q, b) - Nanos(q, a) <= CeilDiv((b - a) * q, TWO32)
  {
    assert b * q == a * q + (b - a) * q;
    NanosMonotone(q, a, b);
  }

  /** Converting ticks to nanoseconds and nanoseconds to ticks are adjoint up to one rounding. */
  lemma NearAdjoint(q: u64, ticks: u64, nanos: nat)
    requires 0 < q
    ensures ticks <= IdealTicks(q, nanos) ==> WideNanos(q, ticks) <= nanos
    ensures WideNanos(q, ticks) < nanos ==> ticks <= IdealTicks(q, nanos)
  {
    QuotientIsLargest(nanos * TWO32, q, ticks);
    QuotientIsLargest(ticks * q, TWO32, nanos + 1);
    QuotientIsLargest(ticks * q, TWO32, nanos);
  }

  lemma NotAboveExact(freq: u64, ticks: u64)
    requires 0 < freq
    ensures WideNanos(Scale(freq), ticks) <= ticks * NANOS_PER_SECOND / freq
  {
    var q := Scale(freq);
    var wide := WideNanos(q, ticks);
    ScaleIsQuotient(freq);
    DivBounds(ticks * q, TWO32);
    MulLe(q * freq, NANOS_PER_SECOND_Q32, ticks);
    MulLe(wide * TWO32, ticks * q, freq);
    assert ticks * q * freq == q * freq * ticks;
    assert wide * TWO32 * freq == wide * freq * TWO32;
    QuotientIsLargest(ticks * NANOS_PER_SECOND, freq, wide);
  }

  lemma BelowNext(q: nat, freq: nat, ticks: nat, next: nat)
    requires 0 < freq && NANOS_PER_SECOND_Q32 < q * freq + freq
    requires ticks * q + ticks < next * TWO32
    ensures ticks * NANOS_PER_SECOND < next * freq
  {
    var w := ticks * q + ticks;
    MulLe(NANOS_PER_SECOND_Q32, q * freq + freq, ticks);
    assert (q * freq + freq) * ticks == w * freq;
    MulLe(w + 1, next * TWO32, freq);
    assert next * TWO32 * freq == next * freq * TWO32;
  }

  lemma NotFarBelowExact(freq: u64, ticks: u64)
    requires 0 < freq
    ensures ticks * NANOS_PER_SECOND / freq <= WideNanos(Scale(freq), ticks) + CeilDiv(ticks, TWO32)
  {
    var q := Scale(freq);
    var next := WideNanos(q, ticks) + CeilDiv(ticks, TWO32) + 1;
    ScaleIsQuotient(freq);
    DivBounds(ticks * q, TWO32);
    CeilingIsSmallest(ticks, TWO32, CeilDiv(ticks, TWO32));
    BelowNext(q, freq, ticks, next);
    QuotientIsLargest(ticks * NANOS_PER_SECOND, freq, next);
  }

  /** The multiply-and-shift never exceeds exact division and falls short of it by at most one part in 2^32 of the
      ticks. */
  lemma RefinesExactDivision(freq: u64, ticks: u64)
    requires 0 < freq
    ensures var exact := ticks * NANOS_PER_SECOND / freq;
      exact - CeilDiv(ticks, TWO32) <= WideNanos(Scale(freq), ticks) <= exact
  {
    NotAboveExact(freq, ticks);
    NotFarBelowExact(freq, ticks);
  }

  /** A one-gigahertz source converts every tick count to itself. */
  lemma GigahertzIsIdentity(ticks: u64)
    ensures Scale(NANOS_PER_SECOND) == TWO32
    ensures Nanos(Scale(NANOS_PER_SECOND), ticks) == ticks && !Saturates(Scale(NANOS_PER_SECOND), ticks)
  {
    ScaleIsQuotient(NANOS_PER_SECOND);
    QuotientIsLargest(ticks * TWO32, TWO32, ticks);
    QuotientIsLargest(ticks * TWO32, TWO32, ticks + 1);
  }
}
