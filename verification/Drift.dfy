/** The exact worst loss of adding a duration to an instant and measuring it back. */
module Drift {
  import opened Words
  import opened Q32
  import opened Instants

  function Gcd(a: nat, b: nat): nat
    decreases b
  {
    if b == 0 then a else Gcd(b, a % b)
  }

  /** Nanoseconds lost by the round trip through ticks. */
  function Loss(q: u64, nanos: nat): int
    requires 0 < q && IdealTicks(q, nanos) <= U64_MAX
  {
    nanos - WideNanos(q, IdealTicks(q, nanos))
  }

  function WorstLoss(q: u64): nat
    requires 0 < q
  {
    var gap := q - Gcd(q, TWO32);
    if gap < 0 then 0 else CeilDiv(gap, TWO32)
  }

  lemma Recombine(a: nat, b: nat, u: nat, v: nat, g: nat)
    requires 0 < b && b == u * g && a % b == v * g
    ensures a == ((a / b) * u + v) * g
  {
    var k := a / b;
    assert a == k * b + a % b;
    assert k * (u * g) == k * u * g;
  }

  lemma {:induction false} GcdDivides(a: nat, b: nat) returns (x: nat, y: nat)
    requires 0 < a + b
    ensures 0 < Gcd(a, b) && a == x * Gcd(a, b) && b == y * Gcd(a, b)
    decreases b
  {
    if b == 0 {
      x, y := 1, 0;
    } else {
      var u, v := GcdDivides(b, a % b);
      x, y := (a / b) * u + v, u;
      Recombine(a, b, u, v, Gcd(a, b));
    }
  }

  lemma DivisionStep(a: int, b: int, k: int, r: int, u: int, v: int)
    requires a == b * k + r
    ensures a * v + b * (u - k * v) == b * u + r * v
  {
    assert (b * k + r) * v == b * (k * v) + r * v;
    assert b * (u - k * v) == b * u - b * (k * v);
  }

  lemma {:induction false} Bezout(a: nat, b: nat) returns (x: int, y: int)
    ensures a * x + b * y == Gcd(a, b)
    decreases b
  {
    if b == 0 {
      x, y := 1, 0;
    } else {
      var u, v := Bezout(b, a % b);
      x, y := v, u - (a / b) * v;
      DivisionStep(a, b, a / b, a % b, u, v);
    }
  }

  /** The loss is the rounded-up remainder of the tick division. */
  lemma LossIsRemainder(q: u64, nanos: nat)
    requires 0 < q && IdealTicks(q, nanos) <= U64_MAX
    ensures Loss(q, nanos) == CeilDiv(nanos * TWO32 % q, TWO32)
  {
    var r, t := nanos * TWO32 % q, IdealTicks(q, nanos);
    assert nanos * TWO32 == q * t + r;
    assert t * q == nanos * TWO32 - r;
    assert (nanos * TWO32 - r) / TWO32 == nanos - (r + TWO32 - 1) / TWO32;
  }

  lemma MultipleBelow(g: nat, k: int, x: nat)
    requires 0 < g && k * g < x * g
    ensures k * g <= (x - 1) * g
  {
    if x <= k { MulLe(x, k, g); }
    MulLe(k, x - 1, g);
  }

  /** Remainders of multiples of 2^32 stay a whole divisor below `q`. */
  lemma RemainderLeavesDivisor(q: u64, nanos: nat)
    requires 0 < q
    ensures nanos * TWO32 % q <= q - Gcd(q, TWO32)
  {
    var r, t, g := nanos * TWO32 % q, nanos * TWO32 / q, Gcd(q, TWO32);
    var x, y := GcdDivides(q, TWO32);
    assert nanos * TWO32 == q * t + r;
    var k := nanos * y - x * t;
    assert r == k * g by {
      assert nanos * (y * g) == nanos * y * g;
      assert x * g * t == x * t * g;
    }
    MultipleBelow(g, k, x);
    assert (x - 1) * g == x * g - g;
  }

  lemma CeilMonotone(a: nat, b: nat)
    requires a <= b
    ensures CeilDiv(a, TWO32) <= CeilDiv(b, TWO32)
  {
  }

  /** No duration loses more than `WorstLoss`. */
  lemma LossBounded(q: u64, nanos: nat)
    requires 0 < q && IdealTicks(q, nanos) <= U64_MAX
    ensures 0 <= Loss(q, nanos) <= WorstLoss(q)
  {
    LossIsRemainder(q, nanos);
    RemainderLeavesDivisor(q, nanos);
    CeilMonotone(nanos * TWO32 % q, q - Gcd(q, TWO32));
  }

  lemma RemainderUnique(n: int, q: nat, k: int, r: nat)
    requires r < q && n == q * k + r
    ensures n % q == r
  {
    assert n == q * (n / q) + n % q;
    var dk := n / q - k;
    assert q * dk == r - n % q;
    if 0 < dk { MulLe(1, dk, q); }
    if dk < 0 { MulLe(dk, -1, q); }
  }

  /** Some duration of fewer than `q` nanoseconds, addable to the zero instant, loses exactly `WorstLoss`. */
  lemma LossAttained(q: u64) returns (nanos: u64)
    requires 0 < q
    ensures nanos < q && IdealTicks(q, nanos) <= U64_MAX
    ensures Loss(q, nanos) == WorstLoss(q)
  {
    var g := Gcd(q, TWO32);
    var m, _ := GcdDivides(q, TWO32);
    var x, y := Bezout(q, TWO32);
    nanos := (-y) % q;
    var k := (-y) / q;
    assert -y == q * k + nanos;
    assert g <= q by { MulLe(1, m, g); }
    assert nanos * TWO32 == q * (x - k * TWO32 - 1) + (q - g) by {
      assert q * k * TWO32 == q * (k * TWO32);
      assert q * (x - k * TWO32 - 1) == q * x - q * (k * TWO32) - q;
    }
    RemainderUnique(nanos * TWO32, q, x - k * TWO32 - 1, q - g);
    MulLe(nanos, q, TWO32);
    QuotientIsLargest(nanos * TWO32, q, U64_MAX + 1);
    MulLe(TWO32 + 1, U64_MAX + 1, q);
    LossIsRemainder(q, nanos);
  }

  // ----- tolerances -----

  /** What `t + d`, measured from `t`, comes back short of `d`. */
  function Lost(q: u64, t: Instant, d: Duration): int
    requires t.CheckedAdd(q, d).Some?
  {
    AsNanos(d) - AsNanos(t.CheckedAdd(q, d).value.DurationSince(q, t))
  }

  /** Less than `tolerance` is lost, for every instant and 64-bit duration. */
  ghost predicate Meets(q: u64, tolerance: nat) {
    forall t: Instant, d: Duration :: AsNanos(d) <= U64_MAX && t.CheckedAdd(q, d).Some? ==> Lost(q, t, d) < tolerance
  }

  /** The same for every duration that can be added at all. */
  ghost predicate MeetsAlways(q: u64, tolerance: nat) {
    forall t: Instant, d: Duration :: t.CheckedAdd(q, d).Some? ==> Lost(q, t, d) < tolerance
  }

  /** The loss depends only on the duration: the round trip's, or all that does not fit 64 bits. */
  lemma LostIsLoss(q: u64, t: Instant, d: Duration)
    requires t.CheckedAdd(q, d).Some?
    ensures q != 0 && IdealTicks(q, AsNanos(d)) <= U64_MAX
    ensures Lost(q, t, d) == Max(Loss(q, AsNanos(d)), AsNanos(d) - U64_MAX)
  {
    SucceedsExactly(q, t, d);
    SinceLaterTicks(q, t, t.CheckedAdd(q, d).value);
    NearAdjoint(q, IdealTicks(q, AsNanos(d)), AsNanos(d));
  }

  /** The zero instant takes every duration whose ticks fit the word. */
  lemma AddedToZero(q: u64, nanos: nat) returns (d: Duration)
    requires 0 < q && nanos < TWO64 * NANOS_PER_SECOND && IdealTicks(q, nanos) <= U64_MAX
    ensures AsNanos(d) == nanos && Instant(0).CheckedAdd(q, d).Some?
  {
    d := Duration(nanos / NANOS_PER_SECOND, nanos % NANOS_PER_SECOND);
    SucceedsExactly(q, Instant(0), d);
  }

  lemma WorstIsLost(q: u64) returns (t: Instant, d: Duration)
    requires 0 < q
    ensures AsNanos(d) <= U64_MAX && t.CheckedAdd(q, d).Some? && Lost(q, t, d) == WorstLoss(q)
  {
    var nanos := LossAttained(q);
    d := AddedToZero(q, nanos);
    t := Instant(0);
    LostIsLoss(q, t, d);
  }

  /** A tolerance is met exactly when it exceeds the worst loss, which needs only the scale and its power of two. */
  lemma MeetsExactly(q: u64, tolerance: nat)
    requires 0 < q
    ensures Meets(q, tolerance) <==> WorstLoss(q) < tolerance
  {
    if WorstLoss(q) < tolerance {
      forall t: Instant, d: Duration | AsNanos(d) <= U64_MAX && t.CheckedAdd(q, d).Some?
        ensures Lost(q, t, d) < tolerance
      {
        LostIsLoss(q, t, d);
        LossBounded(q, AsNanos(d));
      }
    } else {
      var t, d := WorstIsLost(q);
    }
  }

  /** The longest duration that can be added to some instant, in nanoseconds. */
  function LongestAddable(q: u64): int {
    if q < TWO32 * NANOS_PER_SECOND then TWO32 * q - 1 else TWO64 * NANOS_PER_SECOND - 1
  }

  lemma LongestIsLongest(q: u64, d: Duration)
    requires 0 < q
    ensures IdealTicks(q, AsNanos(d)) <= U64_MAX ==> AsNanos(d) <= LongestAddable(q)
  {
    QuotientIsLargest(AsNanos(d) * TWO32, q, U64_MAX + 1);
  }

  lemma LongestIsAddable(q: u64)
    requires 0 < q
    ensures 0 <= LongestAddable(q) < TWO64 * NANOS_PER_SECOND && IdealTicks(q, LongestAddable(q)) <= U64_MAX
  {
    QuotientIsLargest(LongestAddable(q) * TWO32, q, U64_MAX + 1);
  }

  /** Over all durations the tolerance must also exceed what the longest addable one has beyond 64 bits. */
  lemma MeetsAlwaysExactly(q: u64, tolerance: nat)
    requires 0 < q
    ensures MeetsAlways(q, tolerance) <==> WorstLoss(q) < tolerance && LongestAddable(q) - U64_MAX < tolerance
  {
    if WorstLoss(q) < tolerance && LongestAddable(q) - U64_MAX < tolerance {
      forall t: Instant, d: Duration | t.CheckedAdd(q, d).Some?
        ensures Lost(q, t, d) < tolerance
      {
        LostIsLoss(q, t, d);
        LossBounded(q, AsNanos(d));
        LongestIsLongest(q, d);
      }
    } else {
      var t, d := WorstIsLost(q);
      LongestIsAddable(q);
      var longest := AddedToZero(q, LongestAddable(q));
      LostIsLoss(q, Instant(0), longest);
    }
  }

  // ----- adding and then subtracting -----

  /** `t += d; t -= e`; `None` is the panic of either. */
  function AfterBoth(q: u64, t: Instant, d: Duration, e: Duration): Option<Instant> {
    match t.CheckedAdd(q, d)
    case None => None
    case Some(u) => u.CheckedSub(q, e)
  }

  /** How far the distance then measured from the start is from `d - e`, on either side. */
  function DriftOfBoth(q: u64, t: Instant, d: Duration, e: Duration): nat
    requires AfterBoth(q, t, d, e).Some?
  {
    Abs(AsNanos(AfterBoth(q, t, d, e).value.DurationSince(q, t)) - (AsNanos(d) - AsNanos(e)))
  }

  /** It is less than `tolerance` for every instant and all durations with a 64-bit difference. */
  ghost predicate MeetsBoth(q: u64, tolerance: nat) {
    forall t: Instant, d: Duration, e: Duration ::
      && AsNanos(e) <= AsNanos(d) <= AsNanos(e) + U64_MAX
      && AfterBoth(q, t, d, e).Some?
      ==> DriftOfBoth(q, t, d, e) < tolerance
  }

  lemma CarryFillsDivisor(q: nat, a: nat, b: nat)
    requires 0 < q && (a + b) / q != a / q + b / q
    ensures q <= a % q + b % q
  {
    var x, y := a / q, b / q;
    assert a == x * q + a % q && b == y * q + b % q;
    assert (x + y) * q == x * q + y * q && (x + y + 1) * q == x * q + y * q + q;
    QuotientIsLargest(a + b, q, x + y);
    QuotientIsLargest(a + b, q, x + y + 1);
  }

  /** When the ticks of a sum exceed those of its parts, each part leaves a remainder of at least the divisor. */
  lemma CarryLeavesDivisor(q: u64, want: nat, e: nat)
    requires 0 < q && IdealTicks(q, want + e) != IdealTicks(q, want) + IdealTicks(q, e)
    ensures Gcd(q, TWO32) <= want * TWO32 % q
  {
    var a, b := want * TWO32, e * TWO32;
    assert (want + e) * TWO32 == a + b;
    CarryFillsDivisor(q, a, b);
    RemainderLeavesDivisor(q, e);
  }

  /** One tick too many gains no more than the worst loss. */
  lemma GainBounded(q: u64, want: nat, ticks: u64)
    requires 0 < q && ticks == IdealTicks(q, want) + 1
    requires Gcd(q, TWO32) <= want * TWO32 % q
    ensures want <= WideNanos(q, ticks) <= want + WorstLoss(q)
  {
    var r, gap := want * TWO32 % q, q - Gcd(q, TWO32);
    assert want * TWO32 == q * IdealTicks(q, want) + r;
    assert ticks * q == q * IdealTicks(q, want) + q;
    RemainderLeavesDivisor(q, want);
    assert (want * TWO32 + (q - r)) / TWO32 == want + (q - r) / TWO32;
    QuotientMonotone(q - r, gap, TWO32);
    QuotientMonotone(gap, gap + TWO32 - 1, TWO32);
  }

  lemma DriftOfBothBounded(q: u64, t: Instant, d: Duration, e: Duration)
    requires AsNanos(e) <= AsNanos(d) <= AsNanos(e) + U64_MAX && AfterBoth(q, t, d, e).Some?
    ensures q != 0 && DriftOfBoth(q, t, d, e) <= WorstLoss(q)
  {
    SucceedsExactly(q, t, d);
    AddThenSub(q, t, d, e);
    var want, u := AsNanos(d) - AsNanos(e), AfterBoth(q, t, d, e).value;
    SucceedsExactly(q, t.CheckedAdd(q, d).value, e);
    SinceLaterTicks(q, t, u);
    if u.ticks == t.ticks + IdealTicks(q, want) {
      LossBounded(q, want);
      NearAdjoint(q, u.ticks - t.ticks, want);
    } else {
      CarryLeavesDivisor(q, want, AsNanos(e));
      GainBounded(q, want, u.ticks - t.ticks);
    }
  }

  lemma SubNothing(q: u64, t: Instant)
    requires 0 < q
    ensures t.CheckedSub(q, ZERO) == Some(t)
  {
    SucceedsExactly(q, t, ZERO);
  }

  /** Subtracting after adding costs nothing more: the same tolerances are met as for adding alone. */
  lemma MeetsBothExactly(q: u64, tolerance: nat)
    requires 0 < q
    ensures MeetsBoth(q, tolerance) <==> WorstLoss(q) < tolerance
  {
    if WorstLoss(q) < tolerance {
      forall t: Instant, d: Duration, e: Duration |
        && AsNanos(e) <= AsNanos(d) <= AsNanos(e) + U64_MAX
        && AfterBoth(q, t, d, e).Some?
        ensures DriftOfBoth(q, t, d, e) < tolerance
      {
        DriftOfBothBounded(q, t, d, e);
      }
    } else {
      var t, d := WorstIsLost(q);
      SubNothing(q, t.CheckedAdd(q, d).value);
      assert DriftOfBoth(q, t, d, ZERO) == WorstLoss(q);
    }
  }
}
