/** Which sources meet the whole-microsecond tolerances of the unit tests. */
module Tolerances {
  import opened Words
  import opened Q32
  import opened Instants
  import opened Drift

  lemma ScaleAbove(freq: u64, bound: nat, q: nat)
    requires 0 < bound <= freq && NANOS_PER_SECOND_Q32 < (q + 1) * bound
    ensures Scale(freq) <= q
  {
    ScaleIsQuotient(freq);
    MulLe(bound, freq, q + 1);
    QuotientIsLargest(NANOS_PER_SECOND_Q32, freq, q + 1);
  }

  lemma ScaleBelow(freq: u64, bound: nat, q: nat)
    requires 0 < freq <= bound && q * bound <= NANOS_PER_SECOND_Q32
    ensures q <= Scale(freq)
  {
    ScaleIsQuotient(freq);
    MulLe(freq, bound, q);
    QuotientIsLargest(NANOS_PER_SECOND_Q32, freq, q);
  }

  // ----- divisors of 2^32 -----

  function Pow2(k: nat): nat {
    if k == 0 then 1 else 2 * Pow2(k - 1)
  }

  lemma OneIsProduct(g: nat, m: nat)
    requires g * m == 1
    ensures g == 1
  {
    if m == 0 { MulLe(g, 0, m); } else { MulLe(1, m, g); }
  }

  /** Half of an even product is the product with one of its factors halved. */
  lemma HalveProduct(g: nat, m: nat, half: nat)
    requires g * m == 2 * half
    ensures if g % 2 == 0 then g / 2 * m == half else m % 2 == 0 && g * (m / 2) == half
  {
    var a, b := g / 2, m / 2;
    assert (2 * a + 1) * (2 * b + 1) == 2 * (a * (2 * b + 1) + b) + 1;
    if g % 2 == 0 {
      assert 2 * a * m == 2 * (a * m);
    } else if m % 2 == 0 {
      assert g * (2 * b) == 2 * (g * b);
    }
  }

  lemma {:induction false} DivisorOfPower(g: nat, m: nat, k: nat) returns (j: nat)
    requires g * m == Pow2(k)
    ensures j <= k && g == Pow2(j)
  {
    if k == 0 {
      j := 0;
      OneIsProduct(g, m);
    } else {
      HalveProduct(g, m, Pow2(k - 1));
      if g % 2 == 0 {
        var i := DivisorOfPower(g / 2, m, k - 1);
        j := i + 1;
      } else {
        j := DivisorOfPower(g, m / 2, k - 1);
      }
    }
  }

  lemma PowersOfTwo()
    ensures Pow2(32) == TWO32
  {
    assert Pow2(8) == 0x100;
    assert Pow2(16) == 0x1_0000;
    assert Pow2(24) == 0x100_0000;
  }

  lemma DividesBelow(g: nat, k: int, r: nat)
    requires r == k * g && 0 < r <= g
    ensures r == g
  {
    if k <= 0 { MulLe(k, 0, g); } else { MulLe(1, k, g); }
  }

  /** The part of a scale above `whole * 2^32` is a power of two if it is no more than the scale's own. */
  lemma RestIsPower(q: u64, whole: nat, r: nat) returns (j: nat)
    requires q == whole * TWO32 + r && 0 < r <= Gcd(q, TWO32)
    ensures j <= 32 && r == Pow2(j)
  {
    var g := Gcd(q, TWO32);
    var x, y := GcdDivides(q, TWO32);
    assert (x - whole * y) * g == x * g - whole * (y * g);
    DividesBelow(g, x - whole * y, r);
    PowersOfTwo();
    j := DivisorOfPower(g, y, 32);
  }

  // ----- scales that no frequency has -----

  /** No frequency has the scale `base + r`: the last that reaches it already reaches the next. The literal is 10^9 *
      2^32. */
  predicate Missed(base: nat, r: nat)
    requires 0 < base
  {
    4_294_967_296_000_000_000 / (base + r) * (base + r + 1) <= 4_294_967_296_000_000_000
  }

  lemma MissedByAll(freq: u64, base: nat, r: nat)
    requires 0 < freq && 0 < base && Missed(base, r)
    ensures Scale(freq) != base + r
  {
    var q := base + r;
    ScaleIsQuotient(freq);
    QuotientIsLargest(NANOS_PER_SECOND_Q32, q, freq);
    assert (q + 1) * freq == q * freq + freq;
    if freq <= NANOS_PER_SECOND_Q32 / q { MulLe(freq, NANOS_PER_SECOND_Q32 / q, q + 1); }
  }

  /** `r` and its next `count - 1` doublings are all missed. */
  predicate AllMissed(base: nat, r: nat, count: nat)
    requires 0 < base
    decreases count
  {
    count == 0 || (Missed(base, r) && AllMissed(base, 2 * r, count - 1))
  }

  lemma {:induction false} NoneOccurs(base: nat, r: nat, count: nat, j: nat)
    requires 0 < base && AllMissed(base, r, count) && j < count
    ensures Missed(base, Pow2(j) * r)
    decreases count
  {
    if j == 0 {
    } else {
      NoneOccurs(base, 2 * r, count - 1, j - 1);
      assert Pow2(j - 1) * (2 * r) == Pow2(j) * r;
    }
  }

  lemma UpperPowersMissed()
    ensures AllMissed(4_290_672_328_704, 0x1_0000, 16)
    ensures AllMissed(8_585_639_624_704, 0x1_0000, 16)
  {
    assert AllMissed(4_290_672_328_704, 0x1000_0000, 4);
    assert AllMissed(4_290_672_328_704, 0x100_0000, 8);
    assert AllMissed(4_290_672_328_704, 0x10_0000, 12);
    assert AllMissed(8_585_639_624_704, 0x1000_0000, 4);
    assert AllMissed(8_585_639_624_704, 0x100_0000, 8);
    assert AllMissed(8_585_639_624_704, 0x10_0000, 12);
  }

  lemma PowersMissed()
    ensures AllMissed(999 * TWO32, 1, 32) && AllMissed(1999 * TWO32, 1, 32)
  {
    UpperPowersMissed();
    assert AllMissed(4_290_672_328_704, 0x1000, 20);
    assert AllMissed(4_290_672_328_704, 0x100, 24);
    assert AllMissed(4_290_672_328_704, 0x10, 28);
    assert AllMissed(8_585_639_624_704, 0x1000, 20);
    assert AllMissed(8_585_639_624_704, 0x100, 24);
    assert AllMissed(8_585_639_624_704, 0x10, 28);
  }

  // ----- the tolerances -----

  /** At most `whole` nanoseconds are lost exactly when the scale is no more than `whole * 2^32` above its own
      divisor. */
  lemma LossWithin(q: u64, whole: nat)
    requires 0 < q
    ensures 1 <= Gcd(q, TWO32) <= TWO32
    ensures WorstLoss(q) <= whole <==> q - Gcd(q, TWO32) <= whole * TWO32
  {
    var x, y := GcdDivides(q, TWO32);
    MulLe(1, Max(y, 1), Gcd(q, TWO32));
    if Gcd(q, TWO32) <= q { CeilingIsSmallest(q - Gcd(q, TWO32), TWO32, whole); }
  }

  /** Of the ticks that last between `whole` and `whole + 1` nanoseconds none loses as little: the part of the scale
      above `whole * 2^32` would have to be a power of two, and no such scale occurs. */
  lemma BetweenLosesMore(freq: u64, whole: nat, r: nat)
    requires 0 < freq && 0 < whole && Scale(freq) == whole * TWO32 + r && 0 < r < TWO32
    requires AllMissed(whole * TWO32, 1, 32)
    ensures whole < WorstLoss(Scale(freq))
  {
    var q := Scale(freq);
    LossWithin(q, whole);
    if r <= Gcd(q, TWO32) {
      var j := RestIsPower(q, whole, r);
      PowersOfTwo();
      NoneOccurs(whole * TWO32, 1, 32, j);
      MissedByAll(freq, whole * TWO32, r);
    }
  }

  lemma NothingAddsToUnset(tolerance: nat)
    ensures Meets(0, tolerance) && MeetsBoth(0, tolerance)
  {
    forall t: Instant, d: Duration
      ensures t.CheckedAdd(0, d).None?
    {
      SucceedsExactly(0, t, d);
    }
  }

  /** A loss of less than one microsecond: exactly 1 MHz and everything from 1 001 002 Hz up. */
  lemma BelowMicrosecond(freq: u64)
    requires 0 < freq && Scale(freq) != 0
    ensures WorstLoss(Scale(freq)) <= 999 <==> freq == 1_000_000 || 1_001_002 <= freq
  {
    var q := Scale(freq);
    LossWithin(q, 999);
    if 1_001_002 <= freq {
      ScaleAbove(freq, 1_001_002, 999 * TWO32);
    } else if freq == 1_000_000 {
      ScaleIsQuotient(freq);
      assert q == 1000 * TWO32;
      assert Gcd(q, TWO32) == Gcd(TWO32, 0) == TWO32;
    } else if freq < 1_000_000 {
      ScaleBelow(freq, 999_999, 1000 * TWO32 + 1);
    } else {
      ScaleBelow(freq, 1_001_001, 999 * TWO32 + 1);
      ScaleAbove(freq, 1_000_001, 1000 * TWO32 - 1);
      PowersMissed();
      BetweenLosesMore(freq, 999, q - 999 * TWO32);
    }
  }

  /** Less than two: exactly 500 kHz and everything from 500 251 Hz up. */
  lemma BelowTwoMicroseconds(freq: u64)
    requires 0 < freq && Scale(freq) != 0
    ensures WorstLoss(Scale(freq)) <= 1999 <==> freq == 500_000 || 500_251 <= freq
  {
    var q := Scale(freq);
    LossWithin(q, 1999);
    if 500_251 <= freq {
      ScaleAbove(freq, 500_251, 1999 * TWO32);
    } else if freq == 500_000 {
      ScaleIsQuotient(freq);
      assert q == 2000 * TWO32;
      assert Gcd(q, TWO32) == Gcd(TWO32, 0) == TWO32;
    } else if freq < 500_000 {
      ScaleBelow(freq, 499_999, 2000 * TWO32 + 1);
    } else {
      ScaleBelow(freq, 500_250, 1999 * TWO32 + 1);
      ScaleAbove(freq, 500_001, 2000 * TWO32 - 1);
      PowersMissed();
      BetweenLosesMore(freq, 1999, q - 1999 * TWO32);
    }
  }

  /** The one-microsecond tolerance of the addition test holds exactly at 1 MHz and from 1 001 002 Hz up, and
      subtracting as well changes nothing. */
  lemma MicrosecondTolerance(freq: u64)
    requires 0 < freq
    ensures Meets(Scale(freq), 1000) <==> freq == 1_000_000 || 1_001_002 <= freq
    ensures MeetsBoth(Scale(freq), 1000) <==> freq == 1_000_000 || 1_001_002 <= freq
  {
    var q := Scale(freq);
    if q == 0 {
      ScaleIsQuotient(freq);
      NothingAddsToUnset(1000);
    } else {
      BelowMicrosecond(freq);
      MeetsExactly(q, 1000);
      MeetsBothExactly(q, 1000);
    }
  }

  /** The two-microsecond tolerance of the in-place test holds exactly at 500 kHz and from 500 251 Hz up. */
  lemma TwoMicrosecondTolerance(freq: u64)
    requires 0 < freq
    ensures MeetsBoth(Scale(freq), 2000) <==> freq == 500_000 || 500_251 <= freq
  {
    var q := Scale(freq);
    if q == 0 {
      ScaleIsQuotient(freq);
      NothingAddsToUnset(2000);
    } else {
      BelowTwoMicroseconds(freq);
      MeetsBothExactly(q, 2000);
    }
  }
}
