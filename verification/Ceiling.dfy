/** How large a violation the detector can count when its readings follow one clock. */
module Ceiling {
  import opened Words
  import opened Tallies
  import opened Detector

  /** How far a reading may fall behind the clock and run ahead of it. */
  datatype Slop = Slop(behind: nat, ahead: nat)

  function CeilingOf(slop: Slop): nat {
    BRACKET_NS + slop.behind + slop.ahead
  }

  predicate ReadingNear(e: Event, now: nat, slop: Slop) {
    e.First? || e.Second? ==> e.value <= now + slop.ahead && now <= e.value + slop.behind
  }

  /** `clock[k]` is a non-decreasing global time at step `k`, and every reading is within `slop` of it when taken. */
  ghost predicate Follows(es: seq<Event>, clock: seq<nat>, slop: Slop) {
    && |clock| == |es|
    && (forall i, j | 0 <= i < j < |clock| :: clock[i] <= clock[j])
    && (forall k | 0 <= k < |es| :: ReadingNear(es[k], clock[k], slop))
  }

  predicate PassBounded(o: Observation, slop: Slop) {
    o.prev <= o.r2 + slop.behind + slop.ahead
  }

  predicate TallyBounded(t: Tally, slop: Slop) {
    && t.maxViolation <= CeilingOf(slop)
    && (CeilingOf(slop) <= HIST_BUCKETS_NS[3] ==> t.histogram[4] == 0)
  }

  predicate WorkerBounded(w: Worker, now: nat, slop: Slop) {
    && TallyBounded(w.tally, slop)
    && match w.phase
       case HoldsFirst(r1) => r1 <= now + slop.ahead
       case Published(_, prev, _) => prev <= now + slop.ahead
       case _ => true
  }

  /** Nothing published so far is more than the slop ahead of the clock, and no counter is above the ceiling. */
  predicate Bounded(s: State, now: nat, slop: Slop) {
    && s.max <= now + slop.ahead
    && (forall t | 0 <= t < |s.workers| :: WorkerBounded(s.workers[t], now, slop))
    && (forall k | 0 <= k < |s.passes| :: PassBounded(s.passes[k].seen, slop))
  }

  lemma CountStaysBounded(t: Tally, o: Observation, slop: Slop)
    requires PassBounded(o, slop) && TallyBounded(t, slop)
    ensures TallyBounded(Counted(t, o), slop)
  {
  }

  lemma StepStaysBounded(s: State, e: Event, was: nat, now: nat, slop: Slop)
    requires Bounded(s, was, slop) && was <= now && ReadingNear(e, now, slop) && Step(s, e).Some?
    ensures Bounded(Step(s, e).value, now, slop)
  {
    var u := Step(s, e).value;
    forall t | 0 <= t < |u.workers|
      ensures WorkerBounded(u.workers[t], now, slop)
    {
      assert WorkerBounded(s.workers[t], was, slop);
      if e.Second? && t == e.thread {
        var ph := s.workers[t].phase;
        CountStaysBounded(s.workers[t].tally, Observation(ph.r1, ph.prev, e.value), slop);
      }
    }
    if e.Second? || e.Publish? {
      assert WorkerBounded(s.workers[e.thread], was, slop);
    }
  }

  function Now(clock: seq<nat>): nat {
    if clock == [] then 0 else clock[|clock| - 1]
  }

  lemma {:induction false} RunStaysBounded(threads: nat, es: seq<Event>, clock: seq<nat>, slop: Slop)
    requires Run(threads, es).Some? && Follows(es, clock, slop)
    ensures Bounded(Run(threads, es).value, Now(clock), slop)
  {
    if es == [] {
    } else {
      var n := |es| - 1;
      var init, e, before := es[..n], es[n], clock[..n];
      assert forall k | 0 <= k < n :: init[k] == es[k] && before[k] == clock[k];
      RunStaysBounded(threads, init, before, slop);
      StepStaysBounded(Run(threads, init).value, e, Now(before), Now(clock), slop);
    }
  }

  /** The bracket-filter ceiling: every violation counted by any number of threads, however interleaved, is at most
      10 000 ns plus the slop on both sides, and while that is at most 50 000 ns the last bucket stays empty. */
  lemma BracketCeiling(threads: nat, es: seq<Event>, clock: seq<nat>, slop: Slop)
    requires Run(threads, es).Some? && Follows(es, clock, slop)
    ensures TallyBounded(Joined(TalliesOf(Run(threads, es).value)).total, slop)
    ensures var total, ceiling := Joined(TalliesOf(Run(threads, es).value)).total, 10_000 + slop.behind + slop.ahead;
      total.maxViolation <= ceiling && (ceiling <= 50_000 ==> FigureOf(total, InBucket(4)) == 0)
  {
    var s := Run(threads, es).value;
    var ts := TalliesOf(s);
    RunStaysBounded(threads, es, clock, slop);
    forall t | 0 <= t < |ts|
      ensures TallyBounded(ts[t], slop)
    {
      assert WorkerBounded(s.workers[t], Now(clock), slop);
    }
    JoinedWorst(ts);
    JoinedBucketEmpty(ts, 4);
  }

  /** With exact readings of one clock the margin of a pass never exceeds its own bracket. */
  lemma MarginWithinBracket(threads: nat, es: seq<Event>, clock: seq<nat>, k: nat)
    requires Run(threads, es).Some? && Follows(es, clock, Slop(0, 0))
    requires k < |Run(threads, es).value.passes|
    ensures var o := Run(threads, es).value.passes[k].seen;
      o.prev <= o.r2 && (Violates(o) ==> o.prev - o.r1 <= o.r2 - o.r1 <= BRACKET_NS)
  {
    RunStaysBounded(threads, es, clock, Slop(0, 0));
    assert PassBounded(Run(threads, es).value.passes[k].seen, Slop(0, 0));
  }

  /** A larger reported value refutes every global clock the readings could have followed. */
  lemma LargerReportRefutesClock(threads: nat, es: seq<Event>, slop: Slop)
    requires Run(threads, es).Some?
    requires CeilingOf(slop) < Joined(TalliesOf(Run(threads, es).value)).total.maxViolation
    ensures forall clock: seq<nat> :: !Follows(es, clock, slop)
  {
    forall clock: seq<nat> | Follows(es, clock, slop)
      ensures false
    {
      BracketCeiling(threads, es, clock, slop);
    }
  }

  // ----- the ceiling is attained -----

  lemma PlayAt(threads: nat, es: seq<Event>, clock: seq<nat>, slop: Slop, s: State, e: Event, now: nat)
    returns (longer: seq<Event>, later: seq<nat>, u: State)
    requires Run(threads, es) == Some(s) && Step(s, e).Some?
    requires Follows(es, clock, slop) && Now(clock) <= now && ReadingNear(e, now, slop)
    ensures Run(threads, longer) == Some(u) && Step(s, e) == Some(u)
    ensures Follows(longer, later, slop) && Now(later) == now
  {
    longer, u := Play(threads, es, s, e);
    later := clock + [now];
  }

  lemma ReadFar(slop: Slop) returns (es: seq<Event>, clock: seq<nat>, s: State)
    requires CeilingOf(slop) <= U64_MAX
    ensures Follows(es, clock, slop) && Now(clock) == BRACKET_NS + slop.behind && Run(2, es) == Some(s)
    ensures |s.workers| == 2 && s.max == 0 && s.pubs == []
    ensures s.workers[0].phase == HoldsFirst(CeilingOf(slop)) && s.workers[1] == Worker(HoldsFirst(0), NO_TALLY)
  {
    s := Init(2);
    es, clock := [], [];
    es, clock, s := PlayAt(2, es, clock, slop, s, Check(0), slop.behind);
    es, clock, s := PlayAt(2, es, clock, slop, s, Check(1), slop.behind);
    es, clock, s := PlayAt(2, es, clock, slop, s, First(1, 0), slop.behind);
    es, clock, s := PlayAt(2, es, clock, slop, s, First(0, CeilingOf(slop)), BRACKET_NS + slop.behind);
  }

  lemma ReportsAtLeast(s: State, t: nat)
    requires t < |s.workers|
    ensures s.workers[t].tally.maxViolation <= Joined(TalliesOf(s)).total.maxViolation
  {
    JoinedWorst(TalliesOf(s));
  }

  /** The ceiling is reached for every slop: a run of two threads that counts a violation of exactly that size. */
  lemma CeilingIsReached(slop: Slop) returns (es: seq<Event>, clock: seq<nat>)
    requires CeilingOf(slop) <= U64_MAX
    ensures Follows(es, clock, slop) && Run(2, es).Some?
    ensures Joined(TalliesOf(Run(2, es).value)).total.maxViolation == CeilingOf(slop)
  {
    var now, top, s := BRACKET_NS + slop.behind, CeilingOf(slop), Init(2);
    es, clock, s := ReadFar(slop);
    es, clock, s := PlayAt(2, es, clock, slop, s, Publish(0), now);
    es, clock, s := PlayAt(2, es, clock, slop, s, Publish(1), now);
    assert s.workers[1] == Worker(Published(0, top, 1), NO_TALLY);
    es, clock, s := PlayAt(2, es, clock, slop, s, Second(1, BRACKET_NS), now);
    ReportsAtLeast(s, 1);
    BracketCeiling(2, es, clock, slop);
  }
}
