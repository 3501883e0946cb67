/** The counters a detector thread keeps, and their sum after all threads are joined. */
module Tallies {
  import opened Words

  const BRACKET_NS: nat := 10_000
  const BUCKETS: nat := 5
  const HIST_BUCKETS_NS: seq<u64> := [50, 500, 5_000, 50_000, 0xFFFF_FFFF_FFFF_FFFF]

  datatype Counters = Counters(violations: nat, readings: nat, maxViolation: u64, preempted: nat, histogram: seq<nat>)
  type Tally = c: Counters | |c.histogram| == 5 witness Counters(0, 0, 0, 0, [0, 0, 0, 0, 0])

  const NO_TALLY: Tally := Counters(0, 0, 0, 0, [0, 0, 0, 0, 0])

  /** One pass of a worker: its first read, what `fetch_max` returned, its second read. */
  datatype Observation = Observation(r1: u64, prev: u64, r2: u64)

  predicate Dropped(o: Observation) {
    BRACKET_NS < SaturatingSub(o.r2, o.r1)
  }

  predicate Violates(o: Observation) {
    !Dropped(o) && o.r1 < o.prev
  }

  /** The first bucket whose upper bound is not exceeded. */
  function Bucket(diff: u64): (b: nat)
    ensures b < BUCKETS && diff <= HIST_BUCKETS_NS[b]
    ensures forall k | 0 <= k < b :: HIST_BUCKETS_NS[k] < diff
  {
    if diff <= 50 then 0 else if diff <= 500 then 1 else if diff <= 5_000 then 2 else if diff <= 50_000 then 3 else 4
  }

  function Counted(t: Tally, o: Observation): Tally {
    var seen := t.(readings := t.readings + 1);
    if Dropped(o) then seen.(preempted := t.preempted + 1)
    else if o.prev <= o.r1 then seen
    else
      var b := Bucket(o.prev - o.r1);
      seen.(violations := t.violations + 1, maxViolation := Max(t.maxViolation, o.prev - o.r1),
            histogram := t.histogram[b := t.histogram[b] + 1])
  }

  function CountedAll(os: seq<Observation>): Tally {
    if os == [] then NO_TALLY else Counted(CountedAll(os[..|os| - 1]), os[|os| - 1])
  }

  predicate Holds(t: Tally, violations: nat, readings: nat, maxViolation: u64, preempted: nat, histogram: seq<nat>) {
    && t.violations == violations && t.readings == readings && t.maxViolation == maxViolation
    && t.preempted == preempted && t.histogram == histogram
  }

  /** What one pass does to the running counters. */
  lemma HoldsAfter(t: Tally, o: Observation, violations: nat, readings: nat, maxViolation: u64, preempted: nat,
                   histogram: seq<nat>)
    requires Holds(t, violations, readings, maxViolation, preempted, histogram)
    ensures Dropped(o) ==> Holds(Counted(t, o), violations, readings + 1, maxViolation, preempted + 1, histogram)
    ensures Violates(o) ==>
      var b := Bucket(o.prev - o.r1);
      Holds(Counted(t, o), violations + 1, readings + 1, Max(maxViolation, o.prev - o.r1), preempted,
            histogram[b := histogram[b] + 1])
    ensures !Dropped(o) && !Violates(o) ==>
      Holds(Counted(t, o), violations, readings + 1, maxViolation, preempted, histogram)
  {
  }

  lemma CountedSnoc(os: seq<Observation>, k: nat)
    requires k < |os|
    ensures CountedAll(os[..k + 1]) == Counted(CountedAll(os[..k]), os[k])
  {
    assert os[..k + 1][..k] == os[..k];
  }

  function BucketSums(a: seq<nat>, b: seq<nat>): seq<nat>
    requires |a| == |b| == BUCKETS
  {
    [a[0] + b[0], a[1] + b[1], a[2] + b[2], a[3] + b[3], a[4] + b[4]]
  }

  function Merged(a: Tally, b: Tally): Tally {
    Counters(a.violations + b.violations, a.readings + b.readings, Max(a.maxViolation, b.maxViolation),
             a.preempted + b.preempted,
             BucketSums(a.histogram, b.histogram))
  }

  datatype Report = Report(violationsPerThread: seq<nat>, total: Tally)

  function Joined(ts: seq<Tally>): Report {
    if ts == [] then Report([], NO_TALLY)
    else
      var before := Joined(ts[..|ts| - 1]);
      Report(before.violationsPerThread + [ts[|ts| - 1].violations], Merged(before.total, ts[|ts| - 1]))
  }

  lemma JoinedSnoc(ts: seq<Tally>, k: nat)
    requires k < |ts|
    ensures Joined(ts[..k + 1]).violationsPerThread == Joined(ts[..k]).violationsPerThread + [ts[k].violations]
    ensures Joined(ts[..k + 1]).total == Merged(Joined(ts[..k]).total, ts[k])
  {
    assert ts[..k + 1][..k] == ts[..k];
  }

  /** A pass is dropped when its second read is more than 10 000 ns after its first. */
  lemma DroppedExactly(o: Observation)
    ensures Dropped(o) <==> o.r1 + 10_000 < o.r2
  {
  }

  /** The bucket a violation of `diff` ns belongs to, by the bounds on either side. */
  predicate InBounds(diff: int, b: nat) {
    match b
    case 0 => diff <= 50
    case 1 => 50 < diff <= 500
    case 2 => 500 < diff <= 5_000
    case 3 => 5_000 < diff <= 50_000
    case 4 => 50_000 < diff
    case _ => false
  }

  lemma BucketExactly(diff: u64, b: nat)
    ensures Bucket(diff) == b <==> InBounds(diff, b)
  {
  }

  method FindBucket(diff: u64) returns (b: nat)
    ensures b == Bucket(diff) && InBounds(diff, b)
  {
    b := 0;
    while b < BUCKETS
      invariant b <= BUCKETS && forall k | 0 <= k < b :: HIST_BUCKETS_NS[k] < diff
    {
      if diff <= HIST_BUCKETS_NS[b] { break; }
      b := b + 1;
    }
  }

  /** One pass of the worker's loop after its second read. */
  method CountPass(ghost t: Tally, o: Observation, violations: nat, readings: nat, maxViolation: u64, preempted: nat,
                   histogram: array<nat>)
    returns (violations': nat, readings': nat, maxViolation': u64, preempted': nat)
    requires histogram.Length == BUCKETS
    requires Holds(t, violations, readings, maxViolation, preempted, histogram[..])
    modifies histogram
    ensures Holds(Counted(t, o), violations', readings', maxViolation', preempted', histogram[..])
  {
    HoldsAfter(t, o, violations, readings, maxViolation, preempted, histogram[..]);
    violations', readings', maxViolation', preempted' := violations, readings + 1, maxViolation, preempted;
    if BRACKET_NS < SaturatingSub(o.r2, o.r1) {
      preempted' := preempted + 1;
      return;
    }
    if o.r1 < o.prev {
      violations' := violations + 1;
      var diff := o.prev - o.r1;
      if diff > maxViolation { maxViolation' := diff; }
      var b := FindBucket(diff);
      histogram[b] := histogram[b] + 1;
    }
  }

  /** The worker's loop over the passes it makes before it sees the stop flag. */
  method RunWorker(os: seq<Observation>) returns (t: Tally)
    ensures t == CountedAll(os)
  {
    var violations: nat, readings: nat, maxViolation: u64, preempted: nat := 0, 0, 0, 0;
    var histogram := new nat[BUCKETS](_ => 0);
    assert histogram[..] == [0, 0, 0, 0, 0];
    for k := 0 to |os|
      invariant histogram.Length == BUCKETS
      invariant Holds(CountedAll(os[..k]), violations, readings, maxViolation, preempted, histogram[..])
    {
      CountedSnoc(os, k);
      violations, readings, maxViolation, preempted :=
        CountPass(CountedAll(os[..k]), os[k], violations, readings, maxViolation, preempted, histogram);
    }
    assert os[..|os|] == os;
    t := Counters(violations, readings, maxViolation, preempted, histogram[..]);
  }

  // ----- accounting -----

  /** The figures of a tally that add up over threads. */
  datatype Figure = Violations | Readings | Preempted | InBucket(b: nat)

  function FigureOf(t: Tally, g: Figure): nat {
    match g
    case Violations => t.violations
    case Readings => t.readings
    case Preempted => t.preempted
    case InBucket(b) => if b < BUCKETS then t.histogram[b] else 0
  }

  function FiguresOf(ts: seq<Tally>, g: Figure): (column: seq<nat>)
    ensures |column| == |ts| && forall i | 0 <= i < |ts| :: column[i] == FigureOf(ts[i], g)
  {
    seq(|ts|, i requires 0 <= i < |ts| => FigureOf(ts[i], g))
  }

  function Sum(h: seq<nat>): nat {
    if h == [] then 0 else Sum(h[..|h| - 1]) + h[|h| - 1]
  }

  /** The histogram holds every violation once, dropped and violating passes are disjoint, and the worst violation
      is zero exactly when there is none and otherwise lies in the highest bucket in use. */
  predicate Consistent(t: Tally) {
    && Sum(t.histogram) == t.violations
    && t.violations + t.preempted <= t.readings
    && (t.maxViolation == 0 <==> t.violations == 0)
    && (0 < t.violations ==> 0 < t.histogram[Bucket(t.maxViolation)])
    && (forall k | Bucket(t.maxViolation) < k < BUCKETS :: t.histogram[k] == 0)
  }

  lemma SumSnoc(h: seq<nat>, x: nat)
    ensures Sum(h + [x]) == Sum(h) + x
  {
    assert (h + [x])[..|h|] == h;
  }

  lemma SumOfFive(h: seq<nat>)
    requires |h| == BUCKETS
    ensures Sum(h) == h[0] + h[1] + h[2] + h[3] + h[4]
  {
    assert h[..4][..3] == h[..3] && h[..3][..2] == h[..2] && h[..2][..1] == h[..1] && h[..1][..0] == [];
    assert Sum(h[..1]) == h[0];
    assert Sum(h[..2]) == h[0] + h[1];
    assert Sum(h[..3]) == h[0] + h[1] + h[2];
    assert Sum(h[..4]) == h[0] + h[1] + h[2] + h[3];
  }

  lemma BucketMonotone(a: u64, b: u64)
    requires a <= b
    ensures Bucket(a) <= Bucket(b)
  {
  }

  /** Counting a pass keeps the accounts. */
  lemma CountedKeepsAccounts(t: Tally, o: Observation)
    requires Consistent(t)
    ensures Consistent(Counted(t, o))
  {
    var u := Counted(t, o);
    SumOfFive(t.histogram);
    SumOfFive(u.histogram);
    if Violates(o) {
      BucketMonotone(t.maxViolation, u.maxViolation);
      BucketMonotone(o.prev - o.r1, u.maxViolation);
    }
  }

  // ----- joining -----

  method AddHistogram(histogram: array<nat>, hist: seq<nat>)
    requires histogram.Length == |hist| == BUCKETS
    modifies histogram
    ensures histogram[..] == BucketSums(old(histogram[..]), hist)
  {
    for i := 0 to BUCKETS
      invariant forall j | 0 <= j < i :: histogram[j] == old(histogram[j]) + hist[j]
      invariant forall j | i <= j < BUCKETS :: histogram[j] == old(histogram[j])
    {
      histogram[i] := histogram[i] + hist[i];
    }
  }

  lemma MergedKeepsAccounts(a: Tally, b: Tally)
    requires Consistent(a) && Consistent(b)
    ensures Consistent(Merged(a, b))
  {
    SumOfFive(a.histogram);
    SumOfFive(b.histogram);
    SumOfFive(Merged(a, b).histogram);
    if a.maxViolation <= b.maxViolation {
      BucketMonotone(a.maxViolation, b.maxViolation);
    } else {
      BucketMonotone(b.maxViolation, a.maxViolation);
    }
  }

  /** Joining consistent tallies gives a consistent total. */
  lemma {:induction false} JoinedAccounts(ts: seq<Tally>)
    requires forall i | 0 <= i < |ts| :: Consistent(ts[i])
    ensures Consistent(Joined(ts).total)
  {
    if ts == [] {
      SumOfFive(NO_TALLY.histogram);
    } else {
      JoinedAccounts(ts[..|ts| - 1]);
      MergedKeepsAccounts(Joined(ts[..|ts| - 1]).total, ts[|ts| - 1]);
    }
  }

  lemma MergedFigure(a: Tally, b: Tally, g: Figure)
    ensures FigureOf(Merged(a, b), g) == FigureOf(a, g) + FigureOf(b, g)
  {
  }

  /** Every figure of the total is the plain sum of the threads' own. */
  lemma {:induction false} JoinedSums(ts: seq<Tally>, g: Figure)
    ensures FigureOf(Joined(ts).total, g) == Sum(FiguresOf(ts, g))
  {
    if ts == [] {
    } else {
      var init, last := ts[..|ts| - 1], ts[|ts| - 1];
      JoinedSums(init, g);
      SumSnoc(FiguresOf(init, g), FigureOf(last, g));
      assert FiguresOf(ts, g) == FiguresOf(init, g) + [FigureOf(last, g)];
      MergedFigure(Joined(init).total, last, g);
    }
  }

  /** The per-thread list holds each thread's violations and adds up to the total. */
  lemma {:induction false} JoinedAddsUp(ts: seq<Tally>)
    ensures var r := Joined(ts);
      && |r.violationsPerThread| == |ts| && (forall i | 0 <= i < |ts| :: r.violationsPerThread[i] == ts[i].violations)
      && r.violationsPerThread == FiguresOf(ts, Violations)
      && Sum(r.violationsPerThread) == r.total.violations
  {
    if ts == [] {
    } else {
      var init, last := ts[..|ts| - 1], ts[|ts| - 1];
      JoinedAddsUp(init);
      SumSnoc(Joined(init).violationsPerThread, last.violations);
      assert Joined(ts).total.violations == Joined(init).total.violations + last.violations;
    }
  }

  /** The reported worst violation bounds every thread's, and some thread saw it. */
  lemma {:induction false} JoinedWorst(ts: seq<Tally>)
    ensures forall i | 0 <= i < |ts| :: ts[i].maxViolation <= Joined(ts).total.maxViolation
    ensures ts == [] || exists i | 0 <= i < |ts| :: ts[i].maxViolation == Joined(ts).total.maxViolation
  {
    if ts == [] {
    } else {
      var n := |ts| - 1;
      var init, worst := ts[..n], Joined(ts).total.maxViolation;
      JoinedWorst(init);
      if ts[n].maxViolation != worst {
        assert init == [] ==> Joined(init).total.maxViolation == 0;
        var i :| 0 <= i < n && init[i].maxViolation == worst;
        assert ts[i].maxViolation == worst;
      }
    }
  }

  /** A bucket is empty in the joined histogram exactly when it is empty in every thread's. */
  lemma {:induction false} JoinedBucketEmpty(ts: seq<Tally>, b: nat)
    requires b < BUCKETS
    ensures Joined(ts).total.histogram[b] == 0 <==> forall i | 0 <= i < |ts| :: ts[i].histogram[b] == 0
  {
    if ts == [] {
    } else {
      var n := |ts| - 1;
      JoinedBucketEmpty(ts[..n], b);
      assert Joined(ts).total.histogram[b] == Joined(ts[..n]).total.histogram[b] + ts[n].histogram[b];
      assert forall i | 0 <= i < n :: ts[..n][i] == ts[i];
    }
  }

  method JoinAll(handles: seq<Tally>) returns (r: Report)
    ensures r == Joined(handles)
    ensures forall g: Figure :: FigureOf(r.total, g) == Sum(FiguresOf(handles, g))
    ensures r.violationsPerThread == FiguresOf(handles, Violations)
    ensures forall i | 0 <= i < |handles| :: handles[i].maxViolation <= r.total.maxViolation
    ensures r.total.maxViolation == 0
         || exists i | 0 <= i < |handles| :: handles[i].maxViolation == r.total.maxViolation
  {
    var perThread: seq<nat> := [];
    var violations: nat, readings: nat, maxViolation: u64, preempted: nat := 0, 0, 0, 0;
    var histogram := new nat[BUCKETS](_ => 0);
    assert histogram[..] == [0, 0, 0, 0, 0];
    for k := 0 to |handles|
      invariant histogram.Length == BUCKETS
      invariant perThread == Joined(handles[..k]).violationsPerThread
      invariant Holds(Joined(handles[..k]).total, violations, readings, maxViolation, preempted, histogram[..])
    {
      var t := handles[k];
      JoinedSnoc(handles, k);
      perThread := perThread + [t.violations];
      violations := violations + t.violations;
      readings := readings + t.readings;
      if t.maxViolation > maxViolation { maxViolation := t.maxViolation; }
      preempted := preempted + t.preempted;
      AddHistogram(histogram, t.histogram);
    }
    assert handles[..|handles|] == handles;
    forall g: Figure
      ensures FigureOf(Joined(handles).total, g) == Sum(FiguresOf(handles, g))
    {
      JoinedSums(handles, g);
    }
    JoinedAddsUp(handles);
    JoinedWorst(handles);
    r := Report(perThread, Counters(violations, readings, maxViolation, preempted, histogram[..]));
  }
}
