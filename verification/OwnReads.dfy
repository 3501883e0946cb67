/** Who published the larger value: the documentation says some other thread, the code compares with every thread. */
module OwnReads {
  import opened Words
  import opened Tallies
  import opened Detector

  /** The two readings of one pass. */
  datatype Pair = Pair(r1: u64, r2: u64)

  /** The readings of `t`'s completed passes, in order. */
  function ReadsOf(passes: seq<Pass>, t: nat): seq<Pair> {
    if passes == [] then []
    else
      var last := passes[|passes| - 1];
      ReadsOf(passes[..|passes| - 1], t) + if last.thread == t then [Pair(last.seen.r1, last.seen.r2)] else []
  }

  /** Every thread has read, pass by pass, what its script says; it may not have finished it. */
  predicate Conforms(s: State, script: seq<seq<Pair>>) {
    |s.workers| == |script| && forall t | 0 <= t < |script| :: ReadsOf(s.passes, t) <= script[t]
  }

  predicate PairInOrder(rs: seq<Pair>, i: nat, j: nat)
    requires i < j < |rs|
  {
    SaturatingSub(rs[j].r2, rs[j].r1) <= BRACKET_NS ==> rs[i].r1 <= rs[j].r1
  }

  /** No pass inside the bracket starts with a smaller reading than an earlier pass of its own thread started with. */
  predicate KeepsOwnOrder(script: seq<seq<Pair>>) {
    forall t, i, j | 0 <= t < |script| && 0 <= i < j < |script[t]| :: PairInOrder(script[t], i, j)
  }

  /** The documented cause: a larger value that another thread had already published. */
  predicate FromOther(pubs: seq<Publication>, p: Pass) {
    exists i | 0 <= i < p.at && i < |pubs| :: pubs[i].thread != p.thread && p.seen.r1 < pubs[i].value
  }

  /** And more: the very value the violation is measured against is such a one. */
  predicate MeasuredAgainstOther(pubs: seq<Publication>, p: Pass) {
    exists i | 0 <= i < p.at && i < |pubs| :: pubs[i].thread != p.thread && p.seen.r1 < pubs[i].value == p.seen.prev
  }

  predicate Attributed(s: State) {
    forall k | 0 <= k < |s.passes| && Violates(s.passes[k].seen) :: FromOther(s.pubs, s.passes[k])
  }

  predicate MeasuredByOthers(s: State) {
    forall k | 0 <= k < |s.passes| && Violates(s.passes[k].seen) :: MeasuredAgainstOther(s.pubs, s.passes[k])
  }

  /** In every interleaving of the scripts, complete or not, each counted violation has the documented cause. */
  ghost predicate AlwaysAttributed(script: seq<seq<Pair>>) {
    forall es: seq<Event> ::
      Run(|script|, es).Some? && Conforms(Run(|script|, es).value, script) ==> Attributed(Run(|script|, es).value)
  }

  ghost predicate AlwaysMeasuredByOthers(script: seq<seq<Pair>>) {
    forall es: seq<Event> ::
      Run(|script|, es).Some? && Conforms(Run(|script|, es).value, script) ==>
        MeasuredByOthers(Run(|script|, es).value)
  }

  // ----- the readings are those of the events -----

  lemma ReadsSnoc(passes: seq<Pass>, p: Pass, t: nat)
    ensures ReadsOf(passes + [p], t)
         == ReadsOf(passes, t) + if p.thread == t then [Pair(p.seen.r1, p.seen.r2)] else []
  {
    assert (passes + [p])[..|passes|] == passes;
  }

  /** The values `t` reads first in its passes, and second, by the events alone. */
  function Firsts(es: seq<Event>, t: nat): seq<u64> {
    if es == [] then []
    else
      var e := es[|es| - 1];
      Firsts(es[..|es| - 1], t) + if e.First? && e.thread == t then [e.value] else []
  }

  function Seconds(es: seq<Event>, t: nat): seq<u64> {
    if es == [] then []
    else
      var e := es[|es| - 1];
      Seconds(es[..|es| - 1], t) + if e.Second? && e.thread == t then [e.value] else []
  }

  function R1s(rs: seq<Pair>): seq<u64> {
    seq(|rs|, i requires 0 <= i < |rs| => rs[i].r1)
  }

  function R2s(rs: seq<Pair>): seq<u64> {
    seq(|rs|, i requires 0 <= i < |rs| => rs[i].r2)
  }

  /** The first read of a pass under way. */
  function Pending(w: Worker): seq<u64> {
    match w.phase
    case HoldsFirst(r1) => [r1]
    case Published(r1, _, _) => [r1]
    case _ => []
  }

  predicate ReadsFollow(s: State, es: seq<Event>, t: nat)
    requires t < |s.workers|
  {
    && Firsts(es, t) == R1s(ReadsOf(s.passes, t)) + Pending(s.workers[t])
    && Seconds(es, t) == R2s(ReadsOf(s.passes, t))
  }

  lemma ReadsExtend(rs: seq<Pair>, p: Pair)
    ensures R1s(rs + [p]) == R1s(rs) + [p.r1] && R2s(rs + [p]) == R2s(rs) + [p.r2]
  {
  }

  lemma SecondFollows(s: State, t: nat, value: u64, u: State, es: seq<Event>)
    requires t < |s.workers| && ReadsFollow(s, es, t) && Step(s, Second(t, value)) == Some(u)
    ensures t < |u.workers| && ReadsFollow(u, es + [Second(t, value)], t)
  {
    var p, r1 := u.passes[|s.passes|], s.workers[t].phase.r1;
    assert (es + [Second(t, value)])[..|es|] == es;
    assert p.thread == t && p.seen.r1 == r1 && p.seen.r2 == value;
    ReadsSnoc(s.passes, p, t);
    ReadsExtend(ReadsOf(s.passes, t), Pair(r1, value));
    assert Pending(s.workers[t]) == [r1] && Pending(u.workers[t]) == [];
  }

  lemma FirstFollows(s: State, t: nat, value: u64, u: State, es: seq<Event>)
    requires t < |s.workers| && ReadsFollow(s, es, t) && Step(s, First(t, value)) == Some(u)
    ensures t < |u.workers| && ReadsFollow(u, es + [First(t, value)], t)
  {
    assert (es + [First(t, value)])[..|es|] == es;
    assert Pending(s.workers[t]) == [] && Pending(u.workers[t]) == [value] && u.passes == s.passes;
  }

  predicate ReadBy(e: Event, t: nat) {
    (e.First? || e.Second?) && e.thread == t
  }

  lemma OthersLeaveReads(s: State, e: Event, u: State, t: nat)
    requires t < |s.workers| && Step(s, e) == Some(u) && !ReadBy(e, t)
    ensures |u.workers| == |s.workers|
    ensures Pending(u.workers[t]) == Pending(s.workers[t])
    ensures ReadsOf(u.passes, t) == ReadsOf(s.passes, t)
  {
    if e.Second? { ReadsSnoc(s.passes, u.passes[|s.passes|], t); }
  }

  lemma StepFollowsReads(s: State, e: Event, u: State, es: seq<Event>, t: nat)
    requires t < |s.workers| && ReadsFollow(s, es, t) && Step(s, e) == Some(u)
    ensures t < |u.workers| && ReadsFollow(u, es + [e], t)
  {
    if !ReadBy(e, t) {
      OthersLeaveReads(s, e, u, t);
      assert (es + [e])[..|es|] == es;
    } else {
      match e
      case First(_, value) => FirstFollows(s, t, value, u, es);
      case Second(_, value) => SecondFollows(s, t, value, u, es);
    }
  }

  /** Over every run and for every thread, the recorded readings are the values of its first and second reads in order,
      the first reads perhaps one ahead. */
  lemma {:induction false} ReadsAreEvents(threads: nat, es: seq<Event>, t: nat)
    requires Run(threads, es).Some? && t < threads
    ensures t < |Run(threads, es).value.workers|
    ensures ReadsFollow(Run(threads, es).value, es, t)
  {
    if es == [] {
    } else {
      var init, e := es[..|es| - 1], es[|es| - 1];
      ReadsAreEvents(threads, init, t);
      StepFollowsReads(Run(threads, init).value, e, Run(threads, es).value, init, t);
      assert init + [e] == es;
    }
  }

  // ----- threads that keep their own order -----

  predicate Recorded(rs: seq<Pair>, value: u64) {
    exists m | 0 <= m < |rs| :: rs[m].r1 == value
  }

  /** A publication is the first read of a completed pass of its thread, or of the one its thread is in. */
  predicate PubKnown(s: State, i: nat)
    requires i < |s.pubs|
  {
    var t := s.pubs[i].thread;
    && t < |s.workers|
    && (Recorded(ReadsOf(s.passes, t), s.pubs[i].value)
        || (s.workers[t].phase.Published? && s.workers[t].phase.at == i))
  }

  predicate OwnBelow(pubs: seq<Publication>, p: Pass) {
    || Dropped(p.seen)
    || forall i | 0 <= i < p.at && i < |pubs| && pubs[i].thread == p.thread :: pubs[i].value <= p.seen.r1
  }

  predicate OwnHistory(s: State) {
    && (forall i | 0 <= i < |s.pubs| :: PubKnown(s, i))
    && (forall k | 0 <= k < |s.passes| :: OwnBelow(s.pubs, s.passes[k]))
  }

  lemma PublishKeepsOwnHistory(s: State, t: nat, u: State)
    requires Invariant(s) && OwnHistory(s) && Step(s, Publish(t)) == Some(u)
    ensures OwnHistory(u)
  {
    forall i | 0 <= i < |u.pubs|
      ensures PubKnown(u, i)
    {
      if i < |s.pubs| { assert PubKnown(s, i); }
    }
    forall k | 0 <= k < |u.passes|
      ensures OwnBelow(u.pubs, u.passes[k])
    {
      assert OwnBelow(s.pubs, s.passes[k]) && PassPlaced(s.pubs, s.passes[k]);
    }
  }

  lemma NewPassOwnBelow(s: State, t: nat, p: Pass, script: seq<Pair>)
    requires OwnHistory(s) && t < |s.workers| && s.workers[t].phase.Published?
    requires p.thread == t && p.at == s.workers[t].phase.at <= |s.pubs|
    requires forall i, j | 0 <= i < j < |script| :: PairInOrder(script, i, j)
    requires ReadsOf(s.passes, t) + [Pair(p.seen.r1, p.seen.r2)] <= script
    ensures OwnBelow(s.pubs, p)
  {
    var rs := ReadsOf(s.passes, t);
    forall i | 0 <= i < p.at && s.pubs[i].thread == t && !Dropped(p.seen)
      ensures s.pubs[i].value <= p.seen.r1
    {
      assert PubKnown(s, i);
      var m :| 0 <= m < |rs| && rs[m].r1 == s.pubs[i].value;
      assert PairInOrder(script, m, |rs|);
    }
  }

  lemma SecondKeepsOwnHistory(s: State, t: nat, value: u64, u: State, script: seq<Pair>)
    requires Invariant(s) && OwnHistory(s) && Step(s, Second(t, value)) == Some(u)
    requires forall i, j | 0 <= i < j < |script| :: PairInOrder(script, i, j)
    requires ReadsOf(u.passes, t) <= script
    ensures OwnHistory(u)
  {
    var ph, p := s.workers[t].phase, u.passes[|s.passes|];
    assert WorkerPlaced(s, t);
    ReadsSnoc(s.passes, p, t);
    NewPassOwnBelow(s, t, p, script);
    forall i | 0 <= i < |u.pubs|
      ensures PubKnown(u, i)
    {
      var v := s.pubs[i].thread;
      assert PubKnown(s, i);
      ReadsSnoc(s.passes, p, v);
      var before, after := ReadsOf(s.passes, v), ReadsOf(u.passes, v);
      if Recorded(before, s.pubs[i].value) {
        var m :| 0 <= m < |before| && before[m].r1 == s.pubs[i].value;
        assert after[m].r1 == s.pubs[i].value;
      } else if v == t {
        assert after[|before|].r1 == s.pubs[i].value;
      }
    }
  }

  lemma StepKeepsOwnHistory(s: State, e: Event, u: State, script: seq<seq<Pair>>)
    requires Invariant(s) && OwnHistory(s) && Step(s, e) == Some(u)
    requires KeepsOwnOrder(script) && Conforms(u, script)
    ensures OwnHistory(u)
  {
    match e
    case Publish(t) => PublishKeepsOwnHistory(s, t, u);
    case Second(t, value) => SecondKeepsOwnHistory(s, t, value, u, script[t]);
    case _ =>
      forall i | 0 <= i < |u.pubs|
        ensures PubKnown(u, i)
      {
        assert PubKnown(s, i);
      }
  }

  lemma StepConforms(s: State, e: Event, u: State, script: seq<seq<Pair>>)
    requires Step(s, e) == Some(u) && Conforms(u, script)
    ensures Conforms(s, script)
  {
    if e.Second? {
      forall t | 0 <= t < |script|
        ensures ReadsOf(s.passes, t) <= script[t]
      {
        ReadsSnoc(s.passes, u.passes[|s.passes|], t);
      }
    }
  }

  lemma {:induction false} RunKeepsOwnHistory(script: seq<seq<Pair>>, es: seq<Event>)
    requires KeepsOwnOrder(script)
    requires Run(|script|, es).Some? && Conforms(Run(|script|, es).value, script)
    ensures OwnHistory(Run(|script|, es).value)
  {
    if es == [] {
    } else {
      var init, e := es[..|es| - 1], es[|es| - 1];
      var s, u := Run(|script|, init).value, Run(|script|, es).value;
      StepConforms(s, e, u, script);
      RunKeepsOwnHistory(script, init);
      RunKeepsInvariant(|script|, init);
      StepKeepsOwnHistory(s, e, u, script);
    }
  }

  /** If every thread keeps its own order, a counted violation was caused by another thread, however the passes
      interleave. */
  lemma ViolationsComeFromOthers(script: seq<seq<Pair>>, es: seq<Event>)
    requires KeepsOwnOrder(script)
    requires Run(|script|, es).Some? && Conforms(Run(|script|, es).value, script)
    ensures Attributed(Run(|script|, es).value) && MeasuredByOthers(Run(|script|, es).value)
  {
    var s := Run(|script|, es).value;
    RunKeepsInvariant(|script|, es);
    RunKeepsOwnHistory(script, es);
    forall k | 0 <= k < |s.passes| && Violates(s.passes[k].seen)
      ensures FromOther(s.pubs, s.passes[k]) && MeasuredAgainstOther(s.pubs, s.passes[k])
    {
      var p := s.passes[k];
      assert PassPlaced(s.pubs, p) && OwnBelow(s.pubs, p);
      ViolatesExactly(s.pubs, p);
      var i :| 0 <= i < p.at && s.pubs[i].value == p.seen.prev;
      assert s.pubs[i].thread != p.thread && p.seen.r1 < s.pubs[i].value;
    }
  }

  // ----- a thread that does not -----

  /** One undisturbed pass of thread `t`. */
  lemma LonePass(threads: nat, es: seq<Event>, s: State, t: nat, p: Pair) returns (longer: seq<Event>, u: State)
    requires Run(threads, es) == Some(s) && !s.stop && t < |s.workers| && s.workers[t].phase.Checking?
    ensures Run(threads, longer) == Some(u) && !u.stop
    ensures |u.workers| == |s.workers| && u.workers[t].phase.Checking?
    ensures u.pubs == s.pubs + [Publication(t, p.r1)]
    ensures u.passes == s.passes + [Pass(t, |s.pubs|, Observation(p.r1, s.max, p.r2))]
  {
    longer, u := Play(threads, es, s, Check(t));
    longer, u := Play(threads, longer, u, First(t, p.r1));
    longer, u := Play(threads, longer, u, Publish(t));
    assert u.workers[t].phase == Published(p.r1, s.max, |s.pubs|);
    longer, u := Play(threads, longer, u, Second(t, p.r2));
  }

  /** The history holds the passes `rs` of thread `t` and nothing else. */
  predicate Alone(s: State, t: nat, rs: seq<Pair>) {
    && |s.pubs| == |s.passes| == |rs|
    && forall m | 0 <= m < |rs| ::
         && s.pubs[m] == Publication(t, rs[m].r1)
         && s.passes[m].thread == t && s.passes[m].at == m
         && s.passes[m].seen.r1 == rs[m].r1 && s.passes[m].seen.r2 == rs[m].r2
  }

  /** A thread can make its first passes before any other thread moves. */
  lemma {:induction false} Solo(threads: nat, t: nat, rs: seq<Pair>) returns (es: seq<Event>, s: State)
    requires t < threads
    ensures Run(threads, es) == Some(s) && Alone(s, t, rs)
    ensures |s.workers| == threads && !s.stop && s.workers[t].phase.Checking?
    ensures forall v: nat :: ReadsOf(s.passes, v) == if v == t then rs else []
  {
    if rs == [] {
      es, s := [], Init(threads);
    } else {
      var n := |rs| - 1;
      var before, was := Solo(threads, t, rs[..n]);
      es, s := LonePass(threads, before, was, t, rs[n]);
      assert rs == rs[..n] + [rs[n]];
      forall v: nat
        ensures ReadsOf(s.passes, v) == if v == t then rs else []
      {
        ReadsSnoc(was.passes, s.passes[n], v);
      }
    }
  }

  /** A pass inside the bracket that starts below an earlier pass of its own thread is, in some interleaving, counted
      with no publication of another thread in sight. */
  lemma AloneAgainstItself(script: seq<seq<Pair>>, t: nat, i: nat, j: nat) returns (es: seq<Event>)
    requires t < |script| && i < j < |script[t]| && !PairInOrder(script[t], i, j)
    ensures Run(|script|, es).Some? && Conforms(Run(|script|, es).value, script)
    ensures var s := Run(|script|, es).value;
      && (exists k | 0 <= k < |s.passes| :: Violates(s.passes[k].seen) && !FromOther(s.pubs, s.passes[k]))
      && (forall k | 0 <= k < |s.pubs| :: s.pubs[k].thread == t)
  {
    var s;
    es, s := Solo(|script|, t, script[t][..j + 1]);
    RunKeepsInvariant(|script|, es);
    var p := s.passes[j];
    assert PassPlaced(s.pubs, p);
    ViolatesExactly(s.pubs, p);
    assert p.seen.r1 < s.pubs[i].value;
    assert Violates(s.passes[j].seen) && !FromOther(s.pubs, s.passes[j]);
  }

  /** For any readings of any number of threads: every interleaving has the documented cause for every counted
      violation exactly when each thread keeps its own order, and then another thread also published the value it is
      measured by. */
  lemma AttributedExactly(script: seq<seq<Pair>>)
    ensures AlwaysAttributed(script) <==> KeepsOwnOrder(script)
    ensures AlwaysMeasuredByOthers(script) <==> KeepsOwnOrder(script)
  {
    if KeepsOwnOrder(script) {
      forall es: seq<Event> | Run(|script|, es).Some? && Conforms(Run(|script|, es).value, script)
        ensures Attributed(Run(|script|, es).value) && MeasuredByOthers(Run(|script|, es).value)
      {
        ViolationsComeFromOthers(script, es);
      }
    } else {
      var t, i, j :| 0 <= t < |script| && 0 <= i < j < |script[t]| && !PairInOrder(script[t], i, j);
      var es := AloneAgainstItself(script, t, i, j);
      assert !Attributed(Run(|script|, es).value) && !MeasuredByOthers(Run(|script|, es).value);
    }
  }
}
