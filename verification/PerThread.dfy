/** The single-thread monotonicity measurement: one pass with a running maximum against a statement over all pairs. */
module PerThread {
  import opened Words

  datatype PerThreadResult = PerThreadResult(violations: nat, totalReads: nat, maxViolation: nat)

  const CHECK_PERIOD: nat := 0x1_0000

  function HighWater(vals: seq<u64>): u64 {
    if vals == [] then 0 else Max(HighWater(vals[..|vals| - 1]), vals[|vals| - 1])
  }

  predicate BelowEarlier(vals: seq<u64>, j: nat)
    requires j < |vals|
  {
    exists i | 0 <= i < j :: vals[j] < vals[i]
  }

  /** Reads below some earlier read. */
  function CountBelowEarlier(vals: seq<u64>): (c: nat) {
    if vals == [] then 0
    else
      var n := |vals| - 1;
      CountBelowEarlier(vals[..n]) + if BelowEarlier(vals, n) then 1 else 0
  }

  function Fall(vals: seq<u64>, i: nat, j: nat): int
    requires i < j < |vals|
  {
    vals[i] as int - vals[j]
  }

  /** `m` is the largest fall from any read to any later one, or zero if there is none. */
  ghost predicate IsLargestFall(vals: seq<u64>, m: nat) {
    && (forall i: nat, j: nat | i < j < |vals| :: Fall(vals, i, j) <= m)
    && (m == 0 || exists i: nat, j: nat | i < j < |vals| :: Fall(vals, i, j) == m)
  }

  predicate NonDecreasing(vals: seq<u64>) {
    forall i, j | 0 <= i < j < |vals| :: vals[i] <= vals[j]
  }

  function FirstReads(clock: nat -> u64, n: nat): (r: seq<u64>)
    ensures |r| == n && forall i | 0 <= i < n :: r[i] == clock(i)
  {
    seq(n, i requires 0 <= i => clock(i))
  }

  lemma {:induction false} HighWaterIsMax(vals: seq<u64>)
    ensures forall i | 0 <= i < |vals| :: vals[i] <= HighWater(vals)
    ensures vals != [] ==> HighWater(vals) in vals
  {
    if vals == [] {
    } else {
      HighWaterIsMax(vals[..|vals| - 1]);
    }
  }

  /** A new read is below an earlier one exactly when it is below the running maximum. */
  lemma BelowHighWater(vals: seq<u64>, x: u64)
    ensures BelowEarlier(vals + [x], |vals|) <==> x < HighWater(vals)
  {
    HighWaterIsMax(vals);
    var longer := vals + [x];
    if x < HighWater(vals) {
      var i :| 0 <= i < |vals| && vals[i] == HighWater(vals);
      assert longer[|vals|] < longer[i];
    }
    if BelowEarlier(longer, |vals|) {
      var i :| 0 <= i < |vals| && longer[|vals|] < longer[i];
      assert vals[i] == longer[i];
    }
  }

  lemma LargestFallSnoc(vals: seq<u64>, x: u64, m: nat)
    requires vals != [] && IsLargestFall(vals, m)
    ensures IsLargestFall(vals + [x], Max(m, HighWater(vals) - x))
  {
    HighWaterIsMax(vals);
    var longer, fall, n := vals + [x], HighWater(vals) - x, |vals|;
    assert forall i: nat, j: nat | i < j < n :: Fall(longer, i, j) == Fall(vals, i, j);
    assert forall i: nat | i < n :: Fall(longer, i, n) <= fall;
    if m < fall {
      var i :| 0 <= i < n && vals[i] == HighWater(vals);
      assert Fall(longer, i, n) == fall;
    } else if m != 0 {
      var i: nat, j: nat :| i < j < n && Fall(vals, i, j) == m;
      assert Fall(longer, i, j) == m;
    }
  }

  /** What the running state of the loop means for the reads so far. */
  ghost predicate Tracks(vals: seq<u64>, previous: u64, violations: nat, maxViolation: nat) {
    && vals != []
    && previous == HighWater(vals)
    && violations == CountBelowEarlier(vals)
    && IsLargestFall(vals, maxViolation)
  }

  lemma TrackFirst(x: u64)
    ensures Tracks([x], x, 0, 0)
  {
    assert [x][..0] == [];
  }

  lemma TrackNext(vals: seq<u64>, x: u64, previous: u64, violations: nat, maxViolation: nat)
    requires Tracks(vals, previous, violations, maxViolation)
    ensures x < previous ==> Tracks(vals + [x], previous, violations + 1, Max(maxViolation, previous - x))
    ensures previous <= x ==> Tracks(vals + [x], x, violations, maxViolation)
  {
    assert (vals + [x])[..|vals|] == vals;
    BelowHighWater(vals, x);
    LargestFallSnoc(vals, x, maxViolation);
  }

  lemma TrackRead(clock: nat -> u64, n: nat, previous: u64, violations: nat, maxViolation: nat)
    requires Tracks(FirstReads(clock, n), previous, violations, maxViolation)
    ensures var x := clock(n);
      if x < previous
      then Tracks(FirstReads(clock, n + 1), previous, violations + 1, Max(maxViolation, previous - x))
      else Tracks(FirstReads(clock, n + 1), x, violations, maxViolation)
  {
    assert FirstReads(clock, n + 1) == FirstReads(clock, n) + [clock(n)];
    TrackNext(FirstReads(clock, n), clock(n), previous, violations, maxViolation);
  }

  /** After `totalReads` reads the budget has been looked at `looks` times, once every 65536 reads after the first. */
  predicate OnSchedule(totalReads: nat, budgetCheck: nat, looks: nat) {
    budgetCheck < TWO32 && totalReads == 1 + CHECK_PERIOD * looks + budgetCheck % CHECK_PERIOD
  }

  /** One more read meets the mask exactly when a look is due, also when the 32-bit counter wraps. */
  lemma ScheduleNext(totalReads: nat, budgetCheck: nat, looks: nat)
    requires OnSchedule(totalReads, budgetCheck, looks)
    ensures var next := (budgetCheck + 1) % TWO32;
      if next % CHECK_PERIOD == 0
      then OnSchedule(totalReads + 1, next, looks + 1) && totalReads == CHECK_PERIOD * (looks + 1)
      else OnSchedule(totalReads + 1, next, looks)
  {
    var next := (budgetCheck + 1) % TWO32;
    var r := budgetCheck % CHECK_PERIOD;
    assert next % CHECK_PERIOD == if r + 1 == CHECK_PERIOD then 0 else r + 1;
  }

  /** One read of the loop, compared with the running maximum. */
  method CompareRead(clock: nat -> u64, n: nat, previous: u64, violations: nat, maxViolation: nat)
    returns (previous': u64, violations': nat, maxViolation': nat)
    requires Tracks(FirstReads(clock, n), previous, violations, maxViolation)
    ensures Tracks(FirstReads(clock, n + 1), previous', violations', maxViolation')
  {
    previous', violations', maxViolation' := previous, violations, maxViolation;
    TrackRead(clock, n, previous, violations, maxViolation);
    var current := clock(n);
    if current < previous {
      violations' := violations + 1;
      var diff := previous - current;
      if diff > maxViolation { maxViolation' := diff; }
    } else {
      previous' := current;
    }
  }

  /** `clock(i)` is the i-th read and `expired(k)` the k-th look at the time budget, taken every 65536 reads. */
  method MeasurePerThread(clock: nat -> u64, expired: nat -> bool, ghost deadline: nat) returns (r: PerThreadResult)
    requires expired(deadline)
    ensures var k := (r.totalReads - 1) / 65_536;
      && 1 <= k && r.totalReads == 1 + 65_536 * k
      && expired(k - 1) && forall j: nat | j < k - 1 :: !expired(j)
    ensures r.violations == CountBelowEarlier(FirstReads(clock, r.totalReads))
    ensures IsLargestFall(FirstReads(clock, r.totalReads), r.maxViolation)
  {
    var previous: u64 := clock(0);
    var violations: nat, maxViolation: nat, totalReads: nat, budgetCheck: nat, looks: nat := 0, 0, 1, 0, 0;
    TrackFirst(previous);
    assert FirstReads(clock, 1) == [previous];
    while true
      invariant OnSchedule(totalReads, budgetCheck, looks)
      invariant looks <= deadline && forall j: nat | j < looks :: !expired(j)
      invariant Tracks(FirstReads(clock, totalReads), previous, violations, maxViolation)
      decreases CHECK_PERIOD * (deadline + 1) - totalReads
    {
      previous, violations, maxViolation := CompareRead(clock, totalReads, previous, violations, maxViolation);
      ScheduleNext(totalReads, budgetCheck, looks);
      totalReads := totalReads + 1;
      budgetCheck := (budgetCheck + 1) % TWO32;
      if budgetCheck % CHECK_PERIOD == 0 {
        looks := looks + 1;
        if expired(looks - 1) { break; }
      }
    }
    r := PerThreadResult(violations, totalReads, maxViolation);
  }

  lemma {:induction false} NoneBelowWhenMonotone(vals: seq<u64>)
    ensures CountBelowEarlier(vals) == 0 <==> NonDecreasing(vals)
  {
    if vals == [] {
    } else {
      var n := |vals| - 1;
      var init := vals[..n];
      NoneBelowWhenMonotone(init);
      assert forall i | 0 <= i < n :: init[i] == vals[i];
      assert BelowEarlier(vals, n) <==> exists i | 0 <= i < n :: vals[n] < init[i];
    }
  }

  /** A clean report means the reads never fell, and only that. */
  lemma CleanExactlyWhenMonotone(vals: seq<u64>, m: nat)
    requires IsLargestFall(vals, m)
    ensures m == 0 <==> NonDecreasing(vals)
    ensures CountBelowEarlier(vals) == 0 <==> NonDecreasing(vals)
  {
    NoneBelowWhenMonotone(vals);
    assert forall i: nat, j: nat | i < j < |vals| :: Fall(vals, i, j) <= 0 <==> vals[i] <= vals[j];
  }

  // ----- against the documented count of consecutive falls -----

  /** The count the documentation describes: reads below the read just before. */
  function CountConsecutiveFalls(vals: seq<u64>): nat {
    var n := |vals| - 1;
    if n < 1 then 0 else CountConsecutiveFalls(vals[..n]) + if vals[n] < vals[n - 1] then 1 else 0
  }

  predicate RecoversPartly(vals: seq<u64>, j: nat)
    requires 0 < j < |vals|
  {
    vals[j - 1] <= vals[j] < HighWater(vals[..j])
  }

  /** Some read is not below its predecessor and yet below the maximum before it. */
  predicate PartialRecovery(vals: seq<u64>) {
    exists j | 0 < j < |vals| :: RecoversPartly(vals, j)
  }

  lemma RecoverySnoc(vals: seq<u64>)
    requires vals != []
    ensures var n := |vals| - 1;
      PartialRecovery(vals) <==> PartialRecovery(vals[..n]) || (0 < n && RecoversPartly(vals, n))
  {
    var n := |vals| - 1;
    var init := vals[..n];
    forall j | 0 < j < n
      ensures RecoversPartly(vals, j) <==> RecoversPartly(init, j)
    {
      assert vals[..j] == init[..j];
    }
    if PartialRecovery(init) {
      var j :| 0 < j < n && RecoversPartly(init, j);
      assert RecoversPartly(vals, j);
    }
    if PartialRecovery(vals) {
      var j :| 0 < j < |vals| && RecoversPartly(vals, j);
      assert j == n || RecoversPartly(init, j);
    }
  }

  /** The reported count is at least the documented one, and equals it exactly when no read recovers only partly. */
  lemma {:induction false} DocumentedCountExactly(vals: seq<u64>)
    ensures CountConsecutiveFalls(vals) <= CountBelowEarlier(vals)
    ensures CountConsecutiveFalls(vals) == CountBelowEarlier(vals) <==> !PartialRecovery(vals)
  {
    var n := |vals| - 1;
    if vals == [] {
    } else {
      var init := vals[..n];
      DocumentedCountExactly(init);
      assert vals == init + [vals[n]];
      BelowHighWater(init, vals[n]);
      HighWaterIsMax(init);
      RecoverySnoc(vals);
    }
  }

  /** A clock that steps back once, from 5 to 1, and then recovers. */
  function JumpClock(i: nat): u64 {
    if i == 1 then 1 else if i == 2 then 2 else 5
  }

  lemma JumpStart(vals: seq<u64>)
    requires vals == [5, 1, 2]
    ensures CountConsecutiveFalls(vals) == 1 && CountBelowEarlier(vals) == 2 && HighWater(vals) == 5
  {
    assert vals[..2] == [5, 1] && [5, 1][..1] == [5];
    assert vals[1] < vals[0] && vals[2] < vals[0];
    assert BelowEarlier(vals, 2) && BelowEarlier([5, 1], 1) && !BelowEarlier([5], 0);
    assert CountBelowEarlier([5]) == 0;
  }

  /** One backward step is reported as two violations, over every count of reads from three on and so over every run. */
  lemma {:induction false} OneJumpCountedTwice(n: nat)
    requires 3 <= n
    ensures CountConsecutiveFalls(FirstReads(JumpClock, n)) == 1
    ensures CountBelowEarlier(FirstReads(JumpClock, n)) == 2
    ensures HighWater(FirstReads(JumpClock, n)) == 5
  {
    var vals := FirstReads(JumpClock, n);
    if n == 3 {
      JumpStart(vals);
    } else {
      var init := FirstReads(JumpClock, n - 1);
      OneJumpCountedTwice(n - 1);
      assert vals == init + [5] && vals[..n - 1] == init;
      BelowHighWater(init, 5);
    }
  }

  /** What the measurement reports for that clock, however long it runs. */
  method JumpReport(expired: nat -> bool, ghost deadline: nat) returns (r: PerThreadResult)
    requires expired(deadline)
    ensures r.violations == 2 && CountConsecutiveFalls(FirstReads(JumpClock, r.totalReads)) == 1
    ensures r.maxViolation == 4
  {
    r := MeasurePerThread(JumpClock, expired, deadline);
    OneJumpCountedTwice(r.totalReads);
    var vals := FirstReads(JumpClock, r.totalReads);
    assert Fall(vals, 0, 1) == 4;
  }
}
