/** Recovering a frequency from the cached scale. */
module Frequency {
  import opened Words
  import opened Q32

  /** The frequency reported for the cached word `q`; zero stands for "not initialised". */
  function Recovered(q: u64): u64 {
    if q == 0 then 0 else TryU64(NANOS_PER_SECOND_Q32 / q, 0)
  }

  lemma RecoveredIsQuotient(q: u64)
    requires 0 < q
    ensures Recovered(q) == NANOS_PER_SECOND_Q32 / q
  {
    QuotientIsLargest(NANOS_PER_SECOND_Q32, q, U64_MAX + 1);
    MulLe(1, q, U64_MAX + 1);
  }

  /** Two frequencies and scales order against each other through one product. */
  lemma ScaleAdjoint(freq: u64, q: u64)
    requires 0 < freq && 0 < q
    ensures q <= Scale(freq) <==> freq <= Recovered(q)
  {
    ScaleIsQuotient(freq);
    RecoveredIsQuotient(q);
    QuotientIsLargest(NANOS_PER_SECOND_Q32, freq, q);
    QuotientIsLargest(NANOS_PER_SECOND_Q32, q, freq);
  }

  lemma QuotientAntitone(a: nat, b: nat)
    requires 0 < a <= b
    ensures NANOS_PER_SECOND_Q32 / b <= NANOS_PER_SECOND_Q32 / a
  {
    var x := NANOS_PER_SECOND_Q32 / b;
    DivBounds(NANOS_PER_SECOND_Q32, b);
    MulLe(a, b, x);
    QuotientIsLargest(NANOS_PER_SECOND_Q32, a, x);
  }

  /** Recovery returns the largest frequency with the same scale, and re-deriving the scale from it changes nothing. */
  lemma RecoveryIsClosure(freq: u64)
    requires 0 < freq <= NANOS_PER_SECOND_Q32
    ensures var back := Recovered(Scale(freq));
      && freq <= back
      && 0 < back && Scale(back) == Scale(freq)
      && (forall other: u64 | 0 < other && Scale(other) == Scale(freq) :: other <= back)
  {
    var q := Scale(freq);
    ScaleIsQuotient(freq);
    ScaleAdjoint(freq, q);
    var back := Recovered(q);
    ScaleAdjoint(back, q);
    ScaleIsQuotient(back);
    QuotientAntitone(freq, back);
    forall other: u64 | 0 < other && Scale(other) == q
      ensures other <= back
    {
      ScaleAdjoint(other, q);
    }
  }

  /** The original frequency comes back exactly when the scale's remainder is below the scale. */
  lemma RecoveryIsExactWhen(freq: u64)
    requires 0 < freq
    ensures Recovered(Scale(freq)) == freq <==> NANOS_PER_SECOND_Q32 % freq < NANOS_PER_SECOND_Q32 / freq
    ensures NANOS_PER_SECOND_Q32 < freq ==> Recovered(Scale(freq)) == 0
    ensures freq * (freq + 1) <= NANOS_PER_SECOND_Q32 ==> Recovered(Scale(freq)) == freq
  {
    var q := Scale(freq);
    ScaleIsQuotient(freq);
    assert NANOS_PER_SECOND_Q32 == freq * q + NANOS_PER_SECOND_Q32 % freq;
    if 0 < q {
      RecoveredIsQuotient(q);
      QuotientIsLargest(NANOS_PER_SECOND_Q32, q, freq);
      QuotientIsLargest(NANOS_PER_SECOND_Q32, q, freq + 1);
      assert (freq + 1) * q == freq * q + q;
    }
    QuotientIsLargest(NANOS_PER_SECOND_Q32, freq, freq + 1);
    assert (freq + 1) * freq == freq * (freq + 1);
  }
}
