/** The shared scale as a reading of the events: what is stored, returned and started, without the machine's own
    steps. */
module CacheHistory {
  import opened Words
  import opened Q32
  import opened ScaleCache

  function ScaleOrZero(freq: u64): u64 {
    if freq == 0 then 0 else Scale(freq)
  }

  /** The last frequency `t` read, on whichever path. */
  function LastRead(es: seq<Event>, t: nat): u64 {
    if es == [] then 0
    else
      match es[|es| - 1]
      case ReadFrequency(v, freq) => if v == t then freq else LastRead(es[..|es| - 1], t)
      case Calibrated(v, freq) => if v == t then freq else LastRead(es[..|es| - 1], t)
      case _ => LastRead(es[..|es| - 1], t)
  }

  function LastBackgroundRead(es: seq<Event>): u64 {
    if es == [] then 0
    else
      match es[|es| - 1]
      case BackgroundCalibrated(freq) => freq
      case _ => LastBackgroundRead(es[..|es| - 1])
  }

  /** The word is the scale of the frequency last read by whoever stored last. */
  function WordAfter(es: seq<Event>): u64 {
    if es == [] then 0
    else
      var init := es[..|es| - 1];
      match es[|es| - 1]
      case StoreScale(t) => ScaleOrZero(LastRead(init, t))
      case StoreNewScale(t) => ScaleOrZero(LastRead(init, t))
      case BackgroundStores => ScaleOrZero(LastBackgroundRead(init))
      case _ => WordAfter(init)
  }

  /** The start-once body has been completed. */
  predicate Left(es: seq<Event>) {
    exists k | 0 <= k < |es| :: es[k].LeaveOnce?
  }

  /** A background thread has been spawned. */
  predicate Started(es: seq<Event>) {
    exists k | 0 <= k < |es| :: es[k].Spawn? && es[k].spawned
  }

  /** What the event makes a conversion return, if it ends one: the word it loads if that is set, and otherwise the
      scale of the frequency its thread read, once it has stored it and, where there is a start-once cell, found that
      completed. */
  function ReturnedBy(b: Build, es: seq<Event>, e: Event): seq<u64> {
    match e
    case Load(_) => if WordAfter(es) != 0 then [WordAfter(es)] else []
    case StoreScale(t) => if b.background then [] else [ScaleOrZero(LastRead(es, t))]
    case EnterOnce(t) => if Left(es) then [ScaleOrZero(LastRead(es, t))] else []
    case LeaveOnce(t) => [ScaleOrZero(LastRead(es, t))]
    case _ => []
  }

  function ReturnedAfter(b: Build, es: seq<Event>): seq<u64> {
    if es == [] then []
    else
      var init := es[..|es| - 1];
      ReturnedAfter(b, init) + ReturnedBy(b, init, es[|es| - 1])
  }

  predicate SlowRead(e: Event, t: nat) {
    e.ReadFrequency? && e.thread == t && e.freq != 0
  }

  function SlowReads(es: seq<Event>, t: nat): nat {
    if es == [] then 0 else SlowReads(es[..|es| - 1], t) + if SlowRead(es[|es| - 1], t) then 1 else 0
  }

  // ----- the machine against the events -----

  /** The scale a client has computed and not yet done with. */
  function Held(p: Phase): Option<u64> {
    match p
    case HoldsScale(q) => Some(q)
    case Ensuring(q) => Some(q)
    case Spawning(q) => Some(q)
    case Spawned(q) => Some(q)
    case HoldsNewScale(q) => Some(q)
    case _ => None
  }

  predicate PhaseRecalls(s: State, es: seq<Event>, t: nat)
    requires t < |s.threads| == |s.slow|
  {
    && s.slow[t] == SlowReads(es, t)
    && (Held(s.threads[t]).Some? ==> Held(s.threads[t]).value == ScaleOrZero(LastRead(es, t)))
  }

  predicate MemoryRecalls(b: Build, s: State, es: seq<Event>) {
    && s.word == WordAfter(es)
    && s.returned == ReturnedAfter(b, es)
    && (s.once == Done <==> Left(es))
  }

  predicate BackgroundRecalls(s: State, es: seq<Event>) {
    && (s.background != NotStarted <==> Started(es))
    && (s.background.HoldsNext? ==> s.background.scale == ScaleOrZero(LastBackgroundRead(es)))
  }

  predicate Recalls(b: Build, s: State, es: seq<Event>) {
    && |s.threads| == |s.slow|
    && MemoryRecalls(b, s, es)
    && BackgroundRecalls(s, es)
    && forall t | 0 <= t < |s.threads| :: PhaseRecalls(s, es, t)
  }

  lemma ReadsSnoc(es: seq<Event>, e: Event, t: nat)
    ensures LastRead(es + [e], t)
         == if (e.ReadFrequency? || e.Calibrated?) && e.thread == t then e.freq else LastRead(es, t)
    ensures SlowReads(es + [e], t) == SlowReads(es, t) + if SlowRead(e, t) then 1 else 0
  {
    assert (es + [e])[..|es|] == es;
  }

  lemma StartsSnoc(es: seq<Event>, e: Event)
    ensures Left(es + [e]) <==> Left(es) || e.LeaveOnce?
    ensures Started(es + [e]) <==> Started(es) || (e.Spawn? && e.spawned)
    ensures LastBackgroundRead(es + [e]) == if e.BackgroundCalibrated? then e.freq else LastBackgroundRead(es)
  {
    var all, n := es + [e], |es|;
    assert all[..n] == es && all[n] == e;
    if k :| 0 <= k < n && es[k].LeaveOnce? { assert all[k].LeaveOnce?; }
    if k :| 0 <= k < n && es[k].Spawn? && es[k].spawned { assert all[k].Spawn? && all[k].spawned; }
  }

  lemma MemorySnoc(b: Build, es: seq<Event>, e: Event)
    ensures ReturnedAfter(b, es + [e]) == ReturnedAfter(b, es) + ReturnedBy(b, es, e)
    ensures WordAfter(es + [e]) ==
            match e
            case StoreScale(t) => ScaleOrZero(LastRead(es, t))
            case StoreNewScale(t) => ScaleOrZero(LastRead(es, t))
            case BackgroundStores => ScaleOrZero(LastBackgroundRead(es))
            case _ => WordAfter(es)
  {
    assert (es + [e])[..|es|] == es;
  }

  // What one step moves, phase by phase; the scale itself stays out of it.

  predicate WordMoves(s: State, e: Event, u: State) {
    match e
    case StoreScale(t) => t < |s.threads| && s.threads[t].HoldsScale? && u.word == s.threads[t].scale
    case StoreNewScale(t) => t < |s.threads| && s.threads[t].HoldsNewScale? && u.word == s.threads[t].scale
    case BackgroundStores => s.background.HoldsNext? && u.word == s.background.scale
    case _ => u.word == s.word
  }

  predicate ReturnMoves(b: Build, s: State, e: Event, u: State) {
    match e
    case Load(_) => u.returned == s.returned + if s.word != 0 then [s.word] else []
    case StoreScale(t) =>
      && t < |s.threads| && s.threads[t].HoldsScale?
      && u.returned == s.returned + if b.background then [] else [s.threads[t].scale]
    case EnterOnce(t) =>
      && t < |s.threads| && s.threads[t].Ensuring?
      && u.returned == s.returned + if s.once == Done then [s.threads[t].scale] else []
    case LeaveOnce(t) =>
      t < |s.threads| && s.threads[t].Spawned? && u.returned == s.returned + [s.threads[t].scale]
    case _ => u.returned == s.returned
  }

  predicate StartMoves(s: State, e: Event, u: State) {
    && (u.once == Done <==> s.once == Done || e.LeaveOnce?)
    && (u.background != NotStarted <==> s.background != NotStarted || (e.Spawn? && e.spawned))
    && (u.background.HoldsNext? ==>
          if e.BackgroundCalibrated? then u.background.scale == ScaleOrZero(e.freq) else u.background == s.background)
  }

  predicate Untouched(s: State, u: State, t: nat) {
    && t < |s.threads| == |s.slow| == |u.threads| == |u.slow|
    && u.threads[t] == s.threads[t] && u.slow[t] == s.slow[t]
  }

  lemma StepMoves(b: Build, s: State, e: Event, u: State)
    requires Step(b, s, e) == Some(u) && |s.threads| == |s.slow|
    ensures WordMoves(s, e, u) && ReturnMoves(b, s, e, u)
    ensures |u.threads| == |u.slow| == |s.threads|
    ensures !OfBackground(e) ==> e.thread < |s.threads|
  {
  }

  lemma StepStarts(b: Build, s: State, e: Event, u: State)
    requires Step(b, s, e) == Some(u)
    ensures StartMoves(s, e, u)
  {
  }

  lemma StepLeavesOthers(b: Build, s: State, e: Event, u: State, t: nat)
    requires Step(b, s, e) == Some(u) && t < |s.threads| == |s.slow|
    requires OfBackground(e) || e.thread != t
    ensures Untouched(s, u, t)
  {
  }

  lemma OthersRecall(s: State, e: Event, u: State, es: seq<Event>, t: nat)
    requires Untouched(s, u, t) && PhaseRecalls(s, es, t)
    requires OfBackground(e) || e.thread != t
    ensures PhaseRecalls(u, es + [e], t)
  {
    ReadsSnoc(es, e, t);
  }

  predicate OwnMoves(s: State, e: Event, u: State, t: nat) {
    && t < |s.threads| == |s.slow| == |u.threads| == |u.slow|
    && u.slow[t] == s.slow[t] + (if SlowRead(e, t) then 1 else 0)
    && (Held(u.threads[t]).Some? ==>
          if e.ReadFrequency? || e.Calibrated? then Held(u.threads[t]).value == ScaleOrZero(e.freq)
          else Held(u.threads[t]) == Held(s.threads[t]))
  }

  lemma StepMovesOwn(b: Build, s: State, e: Event, u: State)
    requires Step(b, s, e) == Some(u) && |s.threads| == |s.slow| && !OfBackground(e)
    ensures OwnMoves(s, e, u, e.thread)
  {
  }

  lemma OwnRecalls(s: State, e: Event, u: State, es: seq<Event>, t: nat)
    requires OwnMoves(s, e, u, t) && PhaseRecalls(s, es, t)
    requires !OfBackground(e) && e.thread == t
    ensures PhaseRecalls(u, es + [e], t)
  {
    ReadsSnoc(es, e, t);
  }

  lemma PhasesRecall(b: Build, s: State, e: Event, u: State, es: seq<Event>)
    requires Recalls(b, s, es) && Step(b, s, e) == Some(u)
    ensures |u.threads| == |u.slow| == |s.threads|
    ensures forall t | 0 <= t < |u.threads| :: PhaseRecalls(u, es + [e], t)
  {
    StepMoves(b, s, e, u);
    if !OfBackground(e) {
      StepMovesOwn(b, s, e, u);
      OwnRecalls(s, e, u, es, e.thread);
    }
    forall t | 0 <= t < |u.threads| && (OfBackground(e) || e.thread != t)
      ensures PhaseRecalls(u, es + [e], t)
    {
      StepLeavesOthers(b, s, e, u, t);
      OthersRecall(s, e, u, es, t);
    }
  }

  lemma WordStaysRecalled(b: Build, s: State, e: Event, u: State, es: seq<Event>)
    requires s.word == WordAfter(es) && BackgroundRecalls(s, es) && WordMoves(s, e, u)
    requires |s.threads| == |s.slow|
    requires e.StoreScale? || e.StoreNewScale? ==> PhaseRecalls(s, es, e.thread)
    ensures u.word == WordAfter(es + [e])
  {
    MemorySnoc(b, es, e);
    if e.StoreScale? || e.StoreNewScale? {
      assert Held(s.threads[e.thread]) == Some(u.word);
    }
  }

  lemma ReturnedStaysRecalled(b: Build, s: State, e: Event, u: State, es: seq<Event>)
    requires MemoryRecalls(b, s, es) && ReturnMoves(b, s, e, u)
    requires |s.threads| == |s.slow|
    requires e.StoreScale? || e.EnterOnce? || e.LeaveOnce? ==> PhaseRecalls(s, es, e.thread)
    ensures u.returned == ReturnedAfter(b, es + [e])
  {
    MemorySnoc(b, es, e);
    if e.StoreScale? || e.EnterOnce? || e.LeaveOnce? {
      assert Held(s.threads[e.thread]) == Some(s.threads[e.thread].scale);
    }
    assert s.returned + [] == s.returned;
  }

  lemma StartsStayRecalled(b: Build, s: State, e: Event, u: State, es: seq<Event>)
    requires Recalls(b, s, es) && StartMoves(s, e, u)
    ensures BackgroundRecalls(u, es + [e]) && (u.once == Done <==> Left(es + [e]))
  {
    StartsSnoc(es, e);
  }

  /** Over every interleaving and every frequency read: the word, every scale returned, the completion of the start-once
      cell, the spawn of the background thread and the slow reads are exactly what the events say. */
  lemma {:induction false} MachineRecallsEvents(b: Build, threads: nat, es: seq<Event>)
    requires Run(b, threads, es).Some?
    ensures Recalls(b, Run(b, threads, es).value, es)
  {
    if es == [] {
    } else {
      var init, e := es[..|es| - 1], es[|es| - 1];
      var s, u := Run(b, threads, init).value, Run(b, threads, es).value;
      MachineRecallsEvents(b, threads, init);
      assert Step(b, s, e) == Some(u) && init + [e] == es;
      StepMoves(b, s, e, u);
      StepStarts(b, s, e, u);
      PhasesRecall(b, s, e, u, init);
      if !OfBackground(e) { assert PhaseRecalls(s, init, e.thread); }
      WordStaysRecalled(b, s, e, u, init);
      ReturnedStaysRecalled(b, s, e, u, init);
      StartsStayRecalled(b, s, e, u, init);
    }
  }

  /** So each thread reads the frequency at most once on the conversion path. */
  lemma OneSlowReadEach(b: Build, threads: nat, es: seq<Event>, t: nat)
    requires Run(b, threads, es).Some? && AllRepresentable(es) && t < |Run(b, threads, es).value.threads|
    ensures SlowReads(es, t) <= 1
  {
    CacheProtocol(b, threads, es);
    MachineRecallsEvents(b, threads, es);
    assert PhaseRecalls(Run(b, threads, es).value, es, t);
  }

  // ----- nobody is stuck -----

  /** A client that has not panicked can always take its next step, whatever it reads, unless it waits at the start-once
      cell while another thread is inside. */
  lemma ClientCanMove(b: Build, s: State, t: nat, freq: u64, spawned: bool)
    requires t < |s.threads| == |s.slow| && !s.threads[t].Panicked?
    ensures var next := match s.threads[t]
                        case Idle => Load(t)
                        case NeedsFrequency => ReadFrequency(t, freq)
                        case HoldsScale(_) => StoreScale(t)
                        case Ensuring(_) => EnterOnce(t)
                        case Spawning(_) => Spawn(t, spawned)
                        case Spawned(_) => LeaveOnce(t)
                        case Recalibrating => Calibrated(t, freq)
                        case _ => StoreNewScale(t);
      Step(b, s, next).Some? <==> !(s.threads[t].Ensuring? && s.once.Busy?)
    ensures s.threads[t].Idle? ==> Step(b, s, BeginRecalibration(t)).Some?
  {
  }

  /** Nor is the background thread, once started. */
  lemma BackgroundCanMove(b: Build, s: State, freq: u64)
    requires s.background != NotStarted
    ensures Step(b, s, match s.background
                       case Looping => BackgroundLoads
                       case Sleeping(_) => BackgroundWakes
                       case Calibrating => BackgroundCalibrated(freq)
                       case _ => BackgroundStores).Some?
  {
  }

  lemma BackgroundSteps(b: Build, s: State, freq: u64, q: u64)
    requires b.recalibrates && s.background == Looping && 0 < freq && q == Scale(freq)
    ensures var asleep, awake := s.(background := Sleeping(s.interval)), s.(background := Calibrating);
      var held := s.(background := HoldsNext(q), obtained := s.obtained + {freq});
      && Step(b, s, BackgroundLoads) == Some(asleep)
      && Step(b, asleep, BackgroundWakes) == Some(awake)
      && Step(b, awake, BackgroundCalibrated(freq)) == Some(held)
      && Step(b, held, BackgroundStores) == Some(s.(word := q, obtained := s.obtained + {freq}))
  {
  }

  /** One whole turn of the background loop stores the scale it calibrated and touches no client. */
  lemma BackgroundTurn(b: Build, s: State, freq: u64, q: u64) returns (es: seq<Event>, u: State)
    requires b.recalibrates && s.background == Looping && 0 < freq && q == Scale(freq)
    ensures es == [BackgroundLoads, BackgroundWakes, BackgroundCalibrated(freq), BackgroundStores]
    ensures Continue(b, s, es) == Some(u) && u == s.(word := q, obtained := s.obtained + {freq})
  {
    BackgroundSteps(b, s, freq, q);
    es, u := Play(b, s, [], s, BackgroundLoads);
    es, u := Play(b, s, es, u, BackgroundWakes);
    es, u := Play(b, s, es, u, BackgroundCalibrated(freq));
    es, u := Play(b, s, es, u, BackgroundStores);
  }

  lemma IdleSteps(b: Build, s: State)
    requires s.background == Looping
    ensures var asleep, awake := s.(background := Sleeping(s.interval)), s.(background := Calibrating);
      && Step(b, s, BackgroundLoads) == Some(asleep)
      && Step(b, asleep, BackgroundWakes) == Some(if b.recalibrates then awake else s)
      && Step(b, awake, BackgroundCalibrated(0)) == Some(s)
  {
  }

  /** A calibration that fails, or a build whose recalibration does nothing, leaves everything as it was. */
  lemma BackgroundIdleTurn(b: Build, s: State) returns (es: seq<Event>)
    requires s.background == Looping
    ensures es == [BackgroundLoads, BackgroundWakes] + if b.recalibrates then [BackgroundCalibrated(0)] else []
    ensures Continue(b, s, es) == Some(s)
  {
    IdleSteps(b, s);
    var u;
    es, u := Play(b, s, [], s, BackgroundLoads);
    es, u := Play(b, s, es, u, BackgroundWakes);
    if b.recalibrates {
      es, u := Play(b, s, es, u, BackgroundCalibrated(0));
    }
  }
}
