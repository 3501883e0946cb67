/** The cross-thread detector as a step machine: any number of threads, any interleaving of their atomic steps. */
module Detector {
  import opened Words
  import opened Tallies

  /** Where a worker stands in its loop; `at` is the place of its last publication in the history. */
  datatype Phase = Checking | Entered | HoldsFirst(r1: u64) | Published(r1: u64, prev: u64, at: nat) | Exited

  datatype Worker = Worker(phase: Phase, tally: Tally)

  datatype Publication = Publication(thread: nat, value: u64)

  /** A completed pass: its publication's place in the history and what the worker saw. */
  datatype Pass = Pass(thread: nat, at: nat, seen: Observation)

  /** `max` and `stop` are shared memory; `pubs` and `passes` record the history. */
  datatype State = State(max: u64, stop: bool, workers: seq<Worker>, pubs: seq<Publication>, passes: seq<Pass>)

  datatype Event =
    | Stop
    | Check(thread: nat)
    | First(thread: nat, value: u64)
    | Publish(thread: nat)
    | Second(thread: nat, value: u64)

  function Init(threads: nat): State {
    State(0, false, seq(threads, _ => Worker(Checking, NO_TALLY)), [], [])
  }

  function MoveTo(s: State, t: nat, p: Phase): State
    requires t < |s.workers|
  {
    s.(workers := s.workers[t := Worker(p, s.workers[t].tally)])
  }

  function Step(s: State, e: Event): Option<State> {
    if e.Stop? then Some(s.(stop := true))
    else if |s.workers| <= e.thread then None
    else
      var t, w := e.thread, s.workers[e.thread];
      match (e, w.phase)
      case (Check(_), Checking) => Some(MoveTo(s, t, if s.stop then Exited else Entered))
      case (First(_, value), Entered) => Some(MoveTo(s, t, HoldsFirst(value)))
      case (Publish(_), HoldsFirst(r1)) =>
        var moved := MoveTo(s, t, Published(r1, s.max, |s.pubs|));
        Some(moved.(max := Max(s.max, r1), pubs := s.pubs + [Publication(t, r1)]))
      case (Second(_, value), Published(r1, prev, at)) =>
        var o := Observation(r1, prev, value);
        Some(s.(workers := s.workers[t := Worker(Checking, Counted(w.tally, o))],
                passes := s.passes + [Pass(t, at, o)]))
      case _ => None
  }

  function Run(threads: nat, es: seq<Event>): Option<State> {
    if es == [] then Some(Init(threads))
    else
      match Run(threads, es[..|es| - 1])
      case None => None
      case Some(s) => Step(s, es[|es| - 1])
  }

  /** Extend a run that has reached `s` by one enabled step. */
  lemma Play(threads: nat, es: seq<Event>, s: State, e: Event) returns (longer: seq<Event>, u: State)
    requires Run(threads, es) == Some(s) && Step(s, e).Some?
    ensures longer == es + [e] && Run(threads, longer) == Some(u) && Step(s, e) == Some(u)
  {
    longer, u := es + [e], Step(s, e).value;
    assert longer[..|es|] == es;
  }

  // ----- the shared maximum and the history -----

  function MaxOf(pubs: seq<Publication>): u64 {
    if pubs == [] then 0 else Max(MaxOf(pubs[..|pubs| - 1]), pubs[|pubs| - 1].value)
  }

  lemma {:induction false} MaxOfIsMax(pubs: seq<Publication>)
    ensures forall i | 0 <= i < |pubs| :: pubs[i].value <= MaxOf(pubs)
    ensures MaxOf(pubs) == 0 || exists i | 0 <= i < |pubs| :: pubs[i].value == MaxOf(pubs)
  {
    if pubs == [] {
    } else {
      var n := |pubs| - 1;
      MaxOfIsMax(pubs[..n]);
      if MaxOf(pubs) != pubs[n].value && MaxOf(pubs) != 0 {
        var i :| 0 <= i < n && pubs[..n][i].value == MaxOf(pubs);
        assert pubs[i].value == MaxOf(pubs);
      }
    }
  }

  /** The publication at `at` is `thread`'s `r1`, and `prev` is the maximum of exactly the publications before it. */
  predicate Placed(pubs: seq<Publication>, thread: nat, at: nat, r1: u64, prev: u64) {
    && at < |pubs|
    && pubs[at] == Publication(thread, r1)
    && prev == MaxOf(pubs[..at])
  }

  predicate PassPlaced(pubs: seq<Publication>, p: Pass) {
    Placed(pubs, p.thread, p.at, p.seen.r1, p.seen.prev)
  }

  predicate WorkerPlaced(s: State, t: nat)
    requires t < |s.workers|
  {
    match s.workers[t].phase
    case Published(r1, prev, at) => Placed(s.pubs, t, at, r1, prev)
    case _ => true
  }

  function ObservationsOf(passes: seq<Pass>, t: nat): seq<Observation> {
    if passes == [] then []
    else
      var last := passes[|passes| - 1];
      ObservationsOf(passes[..|passes| - 1], t) + if last.thread == t then [last.seen] else []
  }

  predicate TallyExact(s: State, t: nat)
    requires t < |s.workers|
  {
    s.workers[t].tally == CountedAll(ObservationsOf(s.passes, t))
  }

  predicate Invariant(s: State) {
    && s.max == MaxOf(s.pubs)
    && (forall t | 0 <= t < |s.workers| :: WorkerPlaced(s, t))
    && (forall k | 0 <= k < |s.passes| :: PassPlaced(s.pubs, s.passes[k]))
    && (forall t | 0 <= t < |s.workers| :: TallyExact(s, t))
  }

  lemma PlacedSurvives(pubs: seq<Publication>, p: Publication, thread: nat, at: nat, r1: u64, prev: u64)
    requires Placed(pubs, thread, at, r1, prev)
    ensures Placed(pubs + [p], thread, at, r1, prev)
  {
    assert (pubs + [p])[..at] == pubs[..at];
  }

  lemma ObservationsSnoc(passes: seq<Pass>, p: Pass, t: nat)
    ensures ObservationsOf(passes + [p], t) == ObservationsOf(passes, t) + if p.thread == t then [p.seen] else []
    ensures CountedAll(ObservationsOf(passes + [p], t))
         == if p.thread == t then Counted(CountedAll(ObservationsOf(passes, t)), p.seen)
            else CountedAll(ObservationsOf(passes, t))
  {
    var before := ObservationsOf(passes, t);
    assert (passes + [p])[..|passes|] == passes;
    assert (before + [p.seen])[..|before|] == before && before + [] == before;
  }

  lemma WorkersStayPlaced(s: State, t: nat)
    requires Invariant(s) && Step(s, Publish(t)).Some?
    ensures forall v | 0 <= v < |s.workers| :: WorkerPlaced(Step(s, Publish(t)).value, v)
  {
    var p, u := Publication(t, s.workers[t].phase.r1), Step(s, Publish(t)).value;
    assert u.pubs[..|s.pubs|] == s.pubs;
    forall v | 0 <= v < |s.workers|
      ensures WorkerPlaced(u, v)
    {
      assert WorkerPlaced(s, v);
      if v != t && s.workers[v].phase.Published? {
        var ph := s.workers[v].phase;
        PlacedSurvives(s.pubs, p, v, ph.at, ph.r1, ph.prev);
      }
    }
  }

  lemma PassesStayPlaced(s: State, p: Publication)
    requires Invariant(s)
    ensures forall k | 0 <= k < |s.passes| :: PassPlaced(s.pubs + [p], s.passes[k])
  {
    forall k | 0 <= k < |s.passes|
      ensures PassPlaced(s.pubs + [p], s.passes[k])
    {
      var pass := s.passes[k];
      assert PassPlaced(s.pubs, pass);
      PlacedSurvives(s.pubs, p, pass.thread, pass.at, pass.seen.r1, pass.seen.prev);
    }
  }

  lemma PublishKeepsInvariant(s: State, t: nat)
    requires Invariant(s) && Step(s, Publish(t)).Some?
    ensures Invariant(Step(s, Publish(t)).value)
  {
    var p, u := Publication(t, s.workers[t].phase.r1), Step(s, Publish(t)).value;
    assert u.pubs == s.pubs + [p] && u.pubs[..|s.pubs|] == s.pubs;
    WorkersStayPlaced(s, t);
    PassesStayPlaced(s, p);
    forall v | 0 <= v < |u.workers|
      ensures TallyExact(u, v)
    {
      assert TallyExact(s, v);
    }
  }

  lemma SecondKeepsInvariant(s: State, t: nat, value: u64)
    requires Invariant(s) && Step(s, Second(t, value)).Some?
    ensures Invariant(Step(s, Second(t, value)).value)
  {
    var u := Step(s, Second(t, value)).value;
    var p := u.passes[|s.passes|];
    assert WorkerPlaced(s, t);
    forall v | 0 <= v < |u.workers|
      ensures TallyExact(u, v) && WorkerPlaced(u, v)
    {
      assert TallyExact(s, v) && WorkerPlaced(s, v);
      ObservationsSnoc(s.passes, p, v);
    }
  }

  lemma StepKeepsInvariant(s: State, e: Event)
    requires Invariant(s) && Step(s, e).Some?
    ensures Invariant(Step(s, e).value) && |Step(s, e).value.workers| == |s.workers|
  {
    match e
    case Publish(t) => PublishKeepsInvariant(s, t);
    case Second(t, value) => SecondKeepsInvariant(s, t, value);
    case _ =>
      var u := Step(s, e).value;
      forall v | 0 <= v < |u.workers|
        ensures TallyExact(u, v) && WorkerPlaced(u, v)
      {
        assert TallyExact(s, v) && WorkerPlaced(s, v);
      }
  }

  /** In every reachable state the shared word is the maximum of all publications, every `prev` is the maximum of
      exactly the earlier ones, and every worker's counters are those of its own passes. */
  lemma {:induction false} RunKeepsInvariant(threads: nat, es: seq<Event>)
    requires Run(threads, es).Some?
    ensures Invariant(Run(threads, es).value)
    ensures |Run(threads, es).value.workers| == threads
  {
    if es == [] {
    } else {
      var init, e := es[..|es| - 1], es[|es| - 1];
      RunKeepsInvariant(threads, init);
      StepKeepsInvariant(Run(threads, init).value, e);
    }
  }

  // ----- the history as a reading of the events -----

  /** The value of the last first read of `t`. */
  function LastFirst(es: seq<Event>, t: nat): u64 {
    if es == [] then 0
    else
      match es[|es| - 1]
      case First(v, value) => if v == t then value else LastFirst(es[..|es| - 1], t)
      case _ => LastFirst(es[..|es| - 1], t)
  }

  /** Every publication is of its thread's last first read. */
  function PublicationsIn(es: seq<Event>): seq<Publication> {
    if es == [] then []
    else
      var init := es[..|es| - 1];
      match es[|es| - 1]
      case Publish(t) => PublicationsIn(init) + [Publication(t, LastFirst(init, t))]
      case _ => PublicationsIn(init)
  }

  /** The place of the last publication of `t`. */
  function LastPlace(pubs: seq<Publication>, t: nat): (at: nat)
    ensures at <= |pubs|
  {
    if pubs == [] then 0
    else if pubs[|pubs| - 1].thread == t then |pubs| - 1
    else LastPlace(pubs[..|pubs| - 1], t)
  }

  /** Every second read completes a pass: its thread's last first read, the maximum of what was published before its own
      publication, and the value just read, whether or not the flag is set. */
  function PassesIn(es: seq<Event>): seq<Pass> {
    if es == [] then []
    else
      var init := es[..|es| - 1];
      match es[|es| - 1]
      case Second(t, value) =>
        var pubs := PublicationsIn(init);
        var at := LastPlace(pubs, t);
        PassesIn(init) + [Pass(t, at, Observation(LastFirst(init, t), MaxOf(pubs[..at]), value))]
      case _ => PassesIn(init)
  }

  predicate PhaseFollows(s: State, es: seq<Event>, t: nat)
    requires t < |s.workers|
  {
    match s.workers[t].phase
    case HoldsFirst(r1) => r1 == LastFirst(es, t)
    case Published(r1, _, at) => r1 == LastFirst(es, t) && at == LastPlace(s.pubs, t)
    case _ => true
  }

  predicate HistoryFollows(s: State, es: seq<Event>) {
    && (s.stop <==> Stop in es)
    && s.pubs == PublicationsIn(es)
    && s.passes == PassesIn(es)
    && (forall k | 0 <= k < |s.passes| :: s.passes[k].thread < |s.workers|)
    && (forall t | 0 <= t < |s.workers| :: PhaseFollows(s, es, t))
  }

  lemma EventsSnoc(es: seq<Event>, e: Event)
    ensures PublicationsIn(es + [e])
         == PublicationsIn(es) + if e.Publish? then [Publication(e.thread, LastFirst(es, e.thread))] else []
    ensures forall t: nat :: LastFirst(es + [e], t) == if e.First? && e.thread == t then e.value else LastFirst(es, t)
    ensures !e.Second? ==> PassesIn(es + [e]) == PassesIn(es)
    ensures Stop in es + [e] <==> Stop in es || e.Stop?
  {
    assert (es + [e])[..|es|] == es;
  }

  lemma SecondSnoc(es: seq<Event>, t: nat, value: u64)
    ensures var pubs := PublicationsIn(es);
      var at := LastPlace(pubs, t);
      PassesIn(es + [Second(t, value)])
      == PassesIn(es) + [Pass(t, at, Observation(LastFirst(es, t), MaxOf(pubs[..at]), value))]
  {
    assert (es + [Second(t, value)])[..|es|] == es;
  }

  lemma PlaceSnoc(pubs: seq<Publication>, p: Publication, t: nat)
    ensures LastPlace(pubs + [p], t) == if p.thread == t then |pubs| else LastPlace(pubs, t)
  {
    assert (pubs + [p])[..|pubs|] == pubs;
  }

  lemma PhasesFollow(s: State, e: Event, u: State, es: seq<Event>)
    requires HistoryFollows(s, es) && Step(s, e) == Some(u)
    ensures |u.workers| == |s.workers|
    ensures forall t | 0 <= t < |u.workers| :: PhaseFollows(u, es + [e], t)
  {
    EventsSnoc(es, e);
    forall t | 0 <= t < |u.workers|
      ensures PhaseFollows(u, es + [e], t)
    {
      assert PhaseFollows(s, es, t);
      if e.Publish? {
        PlaceSnoc(s.pubs, u.pubs[|s.pubs|], t);
        assert PhaseFollows(s, es, e.thread);
      }
    }
  }

  lemma StepFollows(s: State, e: Event, u: State, es: seq<Event>)
    requires Invariant(s) && HistoryFollows(s, es) && Step(s, e) == Some(u)
    ensures HistoryFollows(u, es + [e])
  {
    EventsSnoc(es, e);
    PhasesFollow(s, e, u, es);
    if e.Publish? { assert PhaseFollows(s, es, e.thread); }
    if e.Second? {
      SecondSnoc(es, e.thread, e.value);
      assert PhaseFollows(s, es, e.thread) && WorkerPlaced(s, e.thread);
    }
  }

  /** The recorded history is exactly what the events say: the flag, every publication and every completed pass. */
  lemma {:induction false} HistoryIsEvents(threads: nat, es: seq<Event>)
    requires Run(threads, es).Some?
    ensures HistoryFollows(Run(threads, es).value, es)
  {
    if es == [] {
    } else {
      var init, e := es[..|es| - 1], es[|es| - 1];
      HistoryIsEvents(threads, init);
      RunKeepsInvariant(threads, init);
      StepFollows(Run(threads, init).value, e, Run(threads, es).value, init);
      assert init + [e] == es;
    }
  }

  /** A worker that has not left its loop can always take its next step, whatever it reads and whether or not the flag
      is set; the flag can always be set. */
  lemma WorkerCanMove(s: State, t: nat, value: u64)
    requires t < |s.workers| && !s.workers[t].phase.Exited?
    ensures Step(s, match s.workers[t].phase
                    case Checking => Check(t)
                    case Entered => First(t, value)
                    case HoldsFirst(_) => Publish(t)
                    case _ => Second(t, value)).Some?
    ensures Step(s, Stop).Some?
  {
  }

  // ----- what the counters mean in terms of the history -----

  /** The pass is within the bracket and some earlier publication of any thread exceeds its first read. */
  predicate SawLarger(pubs: seq<Publication>, p: Pass) {
    !Dropped(p.seen) && exists i | 0 <= i < p.at && i < |pubs| :: p.seen.r1 < pubs[i].value
  }

  /** The largest publication before the pass's own exceeds its first read by an amount of bucket `b`. */
  predicate LargestInBounds(pubs: seq<Publication>, p: Pass, b: nat) {
    exists i | 0 <= i < p.at && i < |pubs| ::
      && (forall j | 0 <= j < p.at && j < |pubs| :: pubs[j].value <= pubs[i].value)
      && InBounds(pubs[i].value - p.seen.r1, b)
  }

  /** The pass belongs to the figure, by the history alone. */
  predicate InFigure(pubs: seq<Publication>, p: Pass, g: Figure) {
    match g
    case Violations => SawLarger(pubs, p)
    case Readings => true
    case Preempted => p.seen.r1 + 10_000 < p.seen.r2
    case InBucket(b) => SawLarger(pubs, p) && LargestInBounds(pubs, p, b)
  }

  /** How many passes of `t` belong to the figure. */
  function CountOf(pubs: seq<Publication>, passes: seq<Pass>, t: nat, g: Figure): nat {
    if passes == [] then 0
    else
      var p := passes[|passes| - 1];
      CountOf(pubs, passes[..|passes| - 1], t, g) + if p.thread == t && InFigure(pubs, p, g) then 1 else 0
  }

  /** How many passes of any thread do. */
  function CountAll(pubs: seq<Publication>, passes: seq<Pass>, g: Figure): nat {
    if passes == [] then 0
    else CountAll(pubs, passes[..|passes| - 1], g) + if InFigure(pubs, passes[|passes| - 1], g) then 1 else 0
  }

  lemma ViolatesExactly(pubs: seq<Publication>, p: Pass)
    requires PassPlaced(pubs, p)
    ensures Violates(p.seen) <==> SawLarger(pubs, p)
    ensures forall i | 0 <= i < p.at :: pubs[i].value <= p.seen.prev
    ensures p.seen.prev == 0 || exists i | 0 <= i < p.at :: pubs[i].value == p.seen.prev
  {
    var before := pubs[..p.at];
    MaxOfIsMax(before);
    forall i | 0 <= i < p.at
      ensures pubs[i].value <= p.seen.prev
    {
      assert before[i] == pubs[i];
    }
    if p.seen.prev != 0 {
      var i :| 0 <= i < p.at && before[i].value == p.seen.prev;
      assert pubs[i].value == p.seen.prev;
    }
  }

  lemma BucketOfPass(pubs: seq<Publication>, p: Pass, b: nat)
    requires PassPlaced(pubs, p) && Violates(p.seen)
    ensures Bucket(p.seen.prev - p.seen.r1) == b <==> LargestInBounds(pubs, p, b)
  {
    ViolatesExactly(pubs, p);
    BucketExactly(p.seen.prev - p.seen.r1, b);
    var i :| 0 <= i < p.at && pubs[i].value == p.seen.prev;
    assert forall j | 0 <= j < p.at && j < |pubs| :: pubs[j].value <= pubs[i].value;
  }

  /** Counting a pass adds one to exactly the figures it belongs to. */
  lemma PassCounts(pubs: seq<Publication>, p: Pass, t: Tally, g: Figure)
    requires PassPlaced(pubs, p)
    ensures FigureOf(Counted(t, p.seen), g) == FigureOf(t, g) + if InFigure(pubs, p, g) then 1 else 0
  {
    ViolatesExactly(pubs, p);
    DroppedExactly(p.seen);
    if g.InBucket? && Violates(p.seen) { BucketOfPass(pubs, p, g.b); }
  }

  lemma {:induction false} CountersExactly(pubs: seq<Publication>, passes: seq<Pass>, t: nat, g: Figure)
    requires forall k | 0 <= k < |passes| :: PassPlaced(pubs, passes[k])
    ensures FigureOf(CountedAll(ObservationsOf(passes, t)), g) == CountOf(pubs, passes, t, g)
  {
    if passes == [] {
    } else {
      var n := |passes| - 1;
      var init, p := passes[..n], passes[n];
      CountersExactly(pubs, init, t, g);
      assert passes == init + [p];
      ObservationsSnoc(init, p, t);
      PassCounts(pubs, p, CountedAll(ObservationsOf(init, t)), g);
    }
  }

  /** Publication `i` came before pass `k` of `t`, and that pass was counted. */
  predicate Compared(pubs: seq<Publication>, passes: seq<Pass>, t: nat, k: nat, i: nat) {
    && k < |passes| && passes[k].thread == t && SawLarger(pubs, passes[k])
    && i < passes[k].at && i < |pubs|
  }

  function Margin(pubs: seq<Publication>, p: Pass, i: nat): int
    requires i < |pubs|
  {
    pubs[i].value as int - p.seen.r1
  }

  /** `m` is the largest margin by which an earlier publication exceeded the first read of a counted pass of `t`. */
  ghost predicate IsWorstMargin(pubs: seq<Publication>, passes: seq<Pass>, t: nat, m: nat) {
    && (forall k: nat, i: nat | Compared(pubs, passes, t, k, i) :: Margin(pubs, passes[k], i) <= m)
    && (m == 0 || exists k: nat, i: nat | Compared(pubs, passes, t, k, i) :: Margin(pubs, passes[k], i) == m)
  }

  lemma WorstSnoc(pubs: seq<Publication>, init: seq<Pass>, p: Pass, t: nat, was: nat, m: nat)
    requires PassPlaced(pubs, p)
    requires IsWorstMargin(pubs, init, t, was)
    requires m == if p.thread == t && Violates(p.seen) then Max(was, p.seen.prev - p.seen.r1) else was
    ensures IsWorstMargin(pubs, init + [p], t, m)
  {
    var passes, n := init + [p], |init|;
    ViolatesExactly(pubs, p);
    assert forall k | 0 <= k < n :: passes[k] == init[k];
    forall k: nat, i: nat | Compared(pubs, passes, t, k, i)
      ensures Margin(pubs, passes[k], i) <= m
    {
      if k < n { assert Compared(pubs, init, t, k, i); }
    }
    if m == was && m != 0 {
      var k: nat, i: nat :| Compared(pubs, init, t, k, i) && Margin(pubs, init[k], i) == m;
      assert Compared(pubs, passes, t, k, i) && Margin(pubs, passes[k], i) == m;
    } else if m != 0 {
      var i :| 0 <= i < p.at && pubs[i].value == p.seen.prev;
      assert Compared(pubs, passes, t, n, i) && Margin(pubs, passes[n], i) == m;
    }
  }

  lemma {:induction false} WorstExactly(pubs: seq<Publication>, passes: seq<Pass>, t: nat)
    requires forall k | 0 <= k < |passes| :: PassPlaced(pubs, passes[k])
    ensures IsWorstMargin(pubs, passes, t, CountedAll(ObservationsOf(passes, t)).maxViolation)
  {
    if passes == [] {
    } else {
      var n := |passes| - 1;
      var init, p := passes[..n], passes[n];
      WorstExactly(pubs, init, t);
      assert passes == init + [p];
      ObservationsSnoc(init, p, t);
      ViolatesExactly(pubs, p);
      var was := CountedAll(ObservationsOf(init, t)).maxViolation;
      var m := CountedAll(ObservationsOf(passes, t)).maxViolation;
      WorstSnoc(pubs, init, p, t, was, m);
    }
  }

  /** The online counters are exactly an offline reading of the events: every figure, bucket by bucket, and the worst
      margin. */
  lemma DetectorIsExact(threads: nat, es: seq<Event>, t: nat)
    requires Run(threads, es).Some? && t < threads
    ensures |Run(threads, es).value.workers| == threads
    ensures var c := Run(threads, es).value.workers[t].tally;
      && (forall g: Figure :: FigureOf(c, g) == CountOf(PublicationsIn(es), PassesIn(es), t, g))
      && IsWorstMargin(PublicationsIn(es), PassesIn(es), t, c.maxViolation)
  {
    RunKeepsInvariant(threads, es);
    HistoryIsEvents(threads, es);
    var s := Run(threads, es).value;
    assert TallyExact(s, t);
    forall g: Figure
      ensures FigureOf(s.workers[t].tally, g) == CountOf(s.pubs, s.passes, t, g)
    {
      CountersExactly(s.pubs, s.passes, t, g);
    }
    WorstExactly(s.pubs, s.passes, t);
  }

  lemma {:induction false} CountedAllConsistent(os: seq<Observation>)
    ensures Consistent(CountedAll(os))
  {
    if os == [] {
      SumOfFive(NO_TALLY.histogram);
    } else {
      CountedAllConsistent(os[..|os| - 1]);
      CountedKeepsAccounts(CountedAll(os[..|os| - 1]), os[|os| - 1]);
    }
  }

  function TalliesOf(s: State): (ts: seq<Tally>)
    ensures |ts| == |s.workers| && forall t | 0 <= t < |ts| :: ts[t] == s.workers[t].tally
  {
    seq(|s.workers|, t requires 0 <= t < |s.workers| => s.workers[t].tally)
  }

  /** The report joined after any run is consistent and adds up thread by thread. */
  lemma ReportAccounts(threads: nat, es: seq<Event>)
    requires Run(threads, es).Some?
    ensures var r := Joined(TalliesOf(Run(threads, es).value));
      && Consistent(r.total)
      && |r.violationsPerThread| == threads && Sum(r.violationsPerThread) == r.total.violations
  {
    var s := Run(threads, es).value;
    RunKeepsInvariant(threads, es);
    var ts := TalliesOf(s);
    forall t | 0 <= t < |ts|
      ensures Consistent(ts[t])
    {
      assert TallyExact(s, t);
      CountedAllConsistent(ObservationsOf(s.passes, t));
    }
    JoinedAccounts(ts);
    JoinedAddsUp(ts);
  }

  function CountsOf(threads: nat, pubs: seq<Publication>, passes: seq<Pass>, g: Figure): (column: seq<nat>)
    ensures |column| == threads && forall t | 0 <= t < threads :: column[t] == CountOf(pubs, passes, t, g)
  {
    seq(threads, t requires 0 <= t => CountOf(pubs, passes, t, g))
  }

  lemma {:induction false} SumOfZeros(h: seq<nat>)
    requires forall i | 0 <= i < |h| :: h[i] == 0
    ensures Sum(h) == 0
  {
    if h == [] {
    } else {
      SumOfZeros(h[..|h| - 1]);
    }
  }

  lemma {:induction false} SumBump(h: seq<nat>, k: nat)
    requires k < |h|
    ensures Sum(h[k := h[k] + 1]) == Sum(h) + 1
  {
    var n := |h| - 1;
    var bumped := h[k := h[k] + 1];
    if k == n {
      assert bumped[..n] == h[..n];
    } else {
      SumBump(h[..n], k);
      assert bumped[..n] == h[..n][k := h[..n][k] + 1];
    }
  }

  /** Every pass is some thread's. */
  lemma {:induction false} ThreadsAddUp(threads: nat, pubs: seq<Publication>, passes: seq<Pass>, g: Figure)
    requires forall k | 0 <= k < |passes| :: passes[k].thread < threads
    ensures Sum(CountsOf(threads, pubs, passes, g)) == CountAll(pubs, passes, g)
  {
    var column := CountsOf(threads, pubs, passes, g);
    if passes == [] {
      SumOfZeros(column);
    } else {
      var n := |passes| - 1;
      var before, t := CountsOf(threads, pubs, passes[..n], g), passes[n].thread;
      ThreadsAddUp(threads, pubs, passes[..n], g);
      if InFigure(pubs, passes[n], g) {
        SumBump(before, t);
        assert column == before[t := before[t] + 1];
      } else {
        assert column == before;
      }
    }
  }

  /** Every figure of the joined report is a count over the events of the whole run. */
  lemma ReportIsExact(threads: nat, es: seq<Event>, g: Figure)
    requires Run(threads, es).Some?
    ensures FigureOf(Joined(TalliesOf(Run(threads, es).value)).total, g)
         == CountAll(PublicationsIn(es), PassesIn(es), g)
  {
    var s := Run(threads, es).value;
    var ts := TalliesOf(s);
    RunKeepsInvariant(threads, es);
    HistoryIsEvents(threads, es);
    JoinedSums(ts, g);
    forall t | 0 <= t < threads
      ensures FiguresOf(ts, g)[t] == CountOf(s.pubs, s.passes, t, g)
    {
      DetectorIsExact(threads, es, t);
    }
    assert FiguresOf(ts, g) == CountsOf(threads, s.pubs, s.passes, g);
    ThreadsAddUp(threads, s.pubs, s.passes, g);
  }

  /** `m` is the largest such margin over all threads. */
  ghost predicate IsWorstOfAll(threads: nat, pubs: seq<Publication>, passes: seq<Pass>, m: nat) {
    && (forall t: nat, k: nat, i: nat | t < threads && Compared(pubs, passes, t, k, i) ::
          Margin(pubs, passes[k], i) <= m)
    && (m == 0 || exists t: nat, k: nat, i: nat | t < threads && Compared(pubs, passes, t, k, i) ::
          Margin(pubs, passes[k], i) == m)
  }

  lemma WorstOfThreads(pubs: seq<Publication>, passes: seq<Pass>, worsts: seq<nat>, m: nat)
    requires forall t | 0 <= t < |worsts| :: IsWorstMargin(pubs, passes, t, worsts[t]) && worsts[t] <= m
    requires m == 0 || exists t | 0 <= t < |worsts| :: worsts[t] == m
    ensures IsWorstOfAll(|worsts|, pubs, passes, m)
  {
    forall t: nat, k: nat, i: nat | t < |worsts| && Compared(pubs, passes, t, k, i)
      ensures Margin(pubs, passes[k], i) <= m
    {
      assert Margin(pubs, passes[k], i) <= worsts[t];
    }
    if m != 0 {
      var t :| 0 <= t < |worsts| && worsts[t] == m;
      var k: nat, i: nat :| Compared(pubs, passes, t, k, i) && Margin(pubs, passes[k], i) == m;
    }
  }

  /** Its worst violation bounds every margin of every thread, and is one of them. */
  lemma ReportedWorstIsExact(threads: nat, es: seq<Event>)
    requires Run(threads, es).Some?
    ensures IsWorstOfAll(threads, PublicationsIn(es), PassesIn(es),
                         Joined(TalliesOf(Run(threads, es).value)).total.maxViolation)
  {
    var pubs, passes := PublicationsIn(es), PassesIn(es);
    RunKeepsInvariant(threads, es);
    var ts := TalliesOf(Run(threads, es).value);
    var worsts := seq(threads, t requires 0 <= t < threads => ts[t].maxViolation);
    JoinedWorst(ts);
    forall t | 0 <= t < threads
      ensures IsWorstMargin(pubs, passes, t, worsts[t])
    {
      DetectorIsExact(threads, es, t);
    }
    var m := Joined(ts).total.maxViolation;
    if t :| 0 <= t < threads && ts[t].maxViolation == m { assert worsts[t] == m; }
    WorstOfThreads(pubs, passes, worsts, m);
  }

  // ----- stopping -----

  /** Passes `t` has completed, plus the one it has begun. */
  function Begun(s: State, t: nat): nat
    requires t < |s.workers|
  {
    var w := s.workers[t];
    w.tally.readings + if w.phase.Checking? || w.phase.Exited? then 0 else 1
  }

  lemma StepAfterStop(s: State, e: Event, t: nat)
    requires s.stop && t < |s.workers| && Step(s, e).Some?
    ensures var u := Step(s, e).value;
      u.stop && |u.workers| == |s.workers| && Begun(u, t) == Begun(s, t)
  {
  }

  /** Once the stop flag is set it stays set and no worker begins another pass: each finishes the one under way, if
      any. */
  lemma {:induction false} NoPassBegunAfterStop(threads: nat, es: seq<Event>, k: nat, t: nat)
    requires k <= |es| && t < threads
    requires Run(threads, es[..k]).Some? && Run(threads, es[..k]).value.stop && Run(threads, es).Some?
    ensures Run(threads, es).value.stop
    ensures |Run(threads, es).value.workers| == |Run(threads, es[..k]).value.workers| == threads
    ensures Begun(Run(threads, es).value, t) == Begun(Run(threads, es[..k]).value, t)
  {
    if k == |es| {
      assert es[..k] == es;
      RunKeepsInvariant(threads, es);
    } else {
      var init := es[..|es| - 1];
      assert init[..k] == es[..k];
      NoPassBegunAfterStop(threads, init, k, t);
      StepAfterStop(Run(threads, init).value, es[|es| - 1], t);
    }
  }

  lemma ExitedTakesNoStep(s: State, e: Event, t: nat)
    requires t < |s.workers| && s.workers[t].phase.Exited? && Step(s, e).Some?
    ensures e == Stop || e.thread != t
    ensures t < |Step(s, e).value.workers| && Step(s, e).value.workers[t].phase.Exited?
  {
  }

  /** A look at the flag after it is set is the last thing a worker does. */
  lemma {:induction false} CheckAfterStopIsLast(threads: nat, es: seq<Event>, k: nat, i: nat, t: nat)
    requires Run(threads, es).Some?
    requires k < i < |es| && es[k] == Stop && es[i] == Check(t)
    ensures t < |Run(threads, es).value.workers| && Run(threads, es).value.workers[t].phase.Exited?
    ensures forall j | i < j < |es| :: es[j] == Stop || es[j].thread != t
  {
    var n := |es| - 1;
    var init := es[..n];
    if i == n {
      HistoryIsEvents(threads, init);
      assert init[k] == Stop;
    } else {
      CheckAfterStopIsLast(threads, init, k, i, t);
      ExitedTakesNoStep(Run(threads, init).value, es[n], t);
      forall j | i < j < |es|
        ensures es[j] == Stop || es[j].thread != t
      {
        if j < n { assert init[j] == es[j]; }
      }
    }
  }
}
