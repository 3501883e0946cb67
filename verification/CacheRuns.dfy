/** What particular families of runs of the shared scale do, and do not do. */
module CacheRuns {
  import opened Words
  import opened Q32
  import opened ScaleCache

  lemma StepKeepsWordSet(b: Build, s: State, e: Event, u: State)
    requires Safe(b, s) && s.word != 0 && Step(b, s, e) == Some(u)
    ensures u.word != 0
  {
    if !OfBackground(e) { assert ThreadSafe(b, s, e.thread); }
  }

  /** Once set, the word is never unset again, over any continuation. */
  lemma {:induction false} WordStaysSet(b: Build, from: State, es: seq<Event>)
    requires Safe(b, from) && from.word != 0
    requires Continue(b, from, es).Some? && AllRepresentable(es)
    ensures Continue(b, from, es).value.word != 0
  {
    if es == [] {
    } else {
      var init := es[..|es| - 1];
      WordStaysSet(b, from, init);
      ContinueSafe(b, from, init);
      StepKeepsWordSet(b, Continue(b, from, init).value, es[|es| - 1], Continue(b, from, es).value);
    }
  }

  /** While every frequency read gives one scale, every conversion in the process uses it. */
  lemma OneScaleForAll(b: Build, threads: nat, es: seq<Event>, q: u64)
    requires Run(b, threads, es).Some? && AllRepresentable(es)
    requires forall f: u64 | 0 < f && WasRead(es, f) :: Scale(f) == q
    ensures forall r | r in Run(b, threads, es).value.returned :: r == q
    ensures Run(b, threads, es).value.word in {0, q}
  {
    CacheProtocol(b, threads, es);
  }

  predicate Converting(p: Phase) {
    p.NeedsFrequency? || p.HoldsScale? || p.Ensuring? || p.Spawning? || p.Spawned?
  }

  /** No conversion is under way. */
  predicate AtRest(s: State) {
    forall t | 0 <= t < |s.threads| :: !Converting(s.threads[t])
  }

  // ----- when the background thread starts -----

  predicate Replaced(es: seq<Event>) {
    exists j | 0 <= j < |es| :: es[j].StoreNewScale?
  }

  /** Thread `t` begins a conversion at `k`, before any recalibration has stored its scale. */
  predicate EarlyLoad(es: seq<Event>, k: nat, t: nat) {
    k < |es| && es[k] == Load(t) && !Replaced(es[..k])
  }

  predicate LoadsEarly(es: seq<Event>, t: nat) {
    exists k | 0 <= k < |es| :: EarlyLoad(es, k, t)
  }

  ghost predicate ThreadTraced(s: State, es: seq<Event>, t: nat)
    requires t < |s.threads| == |s.slow|
  {
    && (s.threads[t].Panicked? <==> ReadFrequency(t, 0) in es)
    && (s.slow[t] == 1 || s.threads[t].NeedsFrequency? ==> LoadsEarly(es, t))
    && (LoadsEarly(es, t) ==> SomeSlow(s) || s.threads[t].NeedsFrequency? || s.threads[t].Panicked?)
  }

  /** What the order of events so far says of the state. */
  ghost predicate Traced(s: State, es: seq<Event>) {
    && |s.threads| == |s.slow|
    && (s.word == 0 ==> !Replaced(es))
    && (s.word != 0 ==> Replaced(es) || SomeSlow(s))
    && forall t | 0 <= t < |s.threads| :: ThreadTraced(s, es, t)
  }

  lemma EarlierStays(es: seq<Event>, e: Event, t: nat)
    ensures Replaced(es + [e]) <==> Replaced(es) || e.StoreNewScale?
    ensures LoadsEarly(es + [e], t) <==> LoadsEarly(es, t) || (e == Load(t) && !Replaced(es))
    ensures ReadFrequency(t, 0) in es + [e] <==> ReadFrequency(t, 0) in es || e == ReadFrequency(t, 0)
  {
    var all, n := es + [e], |es|;
    assert all[..n] == es && all[n] == e;
    if j :| 0 <= j < n && es[j].StoreNewScale? { assert all[j].StoreNewScale?; }
    forall k | 0 <= k < n
      ensures EarlyLoad(all, k, t) <==> EarlyLoad(es, k, t)
    {
      assert all[..k] == es[..k];
    }
    if e == Load(t) && !Replaced(es) { assert EarlyLoad(all, n, t); }
  }

  lemma SomeSlowStays(b: Build, s: State, e: Event, u: State)
    requires Safe(b, s) && Step(b, s, e) == Some(u) && SomeSlow(s)
    ensures SomeSlow(u)
  {
    var v :| 0 <= v < |s.slow| && s.slow[v] == 1;
    assert ThreadSafe(b, s, v);
    assert u.slow[v] == 1;
  }

  lemma WordTraced(b: Build, s: State, e: Event, u: State, es: seq<Event>)
    requires Safe(b, s) && Traced(s, es) && Step(b, s, e) == Some(u)
    ensures u.word == 0 ==> !Replaced(es + [e])
    ensures u.word != 0 ==> Replaced(es + [e]) || SomeSlow(u)
  {
    EarlierStays(es, e, 0);
    if s.word != 0 { StepKeepsWordSet(b, s, e, u); }
    if SomeSlow(s) { SomeSlowStays(b, s, e, u); }
    if !OfBackground(e) {
      assert ThreadSafe(b, s, e.thread);
      if e.StoreScale? { assert u.slow[e.thread] == 1; }
    }
  }

  /** What one step does to the thread `t`, as far as its trace goes. */
  lemma ThreadMoves(b: Build, s: State, e: Event, u: State, t: nat)
    requires t < |s.threads| == |s.slow| && ThreadSafe(b, s, t) && Step(b, s, e) == Some(u)
    ensures |u.threads| == |s.threads| && |u.slow| == |s.slow|
    ensures u.threads[t].Panicked? <==> s.threads[t].Panicked? || e == ReadFrequency(t, 0)
    ensures u.slow[t] == 1 || u.threads[t].NeedsFrequency?
       ==> s.slow[t] == 1 || s.threads[t].NeedsFrequency? || (e == Load(t) && s.word == 0)
    ensures s.threads[t].NeedsFrequency? || (e == Load(t) && s.word == 0)
       ==> u.slow[t] == 1 || u.threads[t].NeedsFrequency? || u.threads[t].Panicked?
  {
    if OfBackground(e) || e.thread != t {
      assert u.threads[t] == s.threads[t] && u.slow[t] == s.slow[t];
    }
  }

  lemma StepTraced(b: Build, s: State, e: Event, u: State, es: seq<Event>)
    requires Safe(b, s) && Traced(s, es) && Step(b, s, e) == Some(u) && Safe(b, u)
    ensures Traced(u, es + [e])
  {
    WordTraced(b, s, e, u, es);
    if SomeSlow(s) { SomeSlowStays(b, s, e, u); }
    forall t | 0 <= t < |u.threads|
      ensures ThreadTraced(u, es + [e], t)
    {
      assert ThreadTraced(s, es, t) && ThreadSafe(b, s, t);
      ThreadMoves(b, s, e, u, t);
      EarlierStays(es, e, t);
    }
  }

  lemma RunSafe(b: Build, threads: nat, es: seq<Event>)
    requires Run(b, threads, es).Some? && AllRepresentable(es)
    ensures Safe(b, Run(b, threads, es).value)
  {
    InitSafe(b, threads);
    ContinueSafe(b, Init(threads), es);
  }

  lemma {:induction false} RunIsTraced(b: Build, threads: nat, es: seq<Event>)
    requires Run(b, threads, es).Some? && AllRepresentable(es)
    ensures Traced(Run(b, threads, es).value, es)
  {
    if es == [] {
    } else {
      var init, e := es[..|es| - 1], es[|es| - 1];
      RunIsTraced(b, threads, init);
      RunSafe(b, threads, init);
      RunSafe(b, threads, es);
      var s, u := Run(b, threads, init).value, Run(b, threads, es).value;
      assert Step(b, s, e) == Some(u) && init + [e] == es;
      StepTraced(b, s, e, u, init);
    }
  }

  lemma StepKeepsThreads(b: Build, s: State, e: Event)
    requires Step(b, s, e).Some?
    ensures |Step(b, s, e).value.threads| == |s.threads|
    ensures !OfBackground(e) ==> e.thread < |s.threads|
  {
  }

  lemma {:induction false} ThreadOfEvent(b: Build, threads: nat, es: seq<Event>, k: nat)
    requires Run(b, threads, es).Some? && k < |es| && !OfBackground(es[k])
    ensures es[k].thread < |Run(b, threads, es).value.threads|
  {
    var init := es[..|es| - 1];
    StepKeepsThreads(b, Run(b, threads, init).value, es[|es| - 1]);
    if k < |es| - 1 { ThreadOfEvent(b, threads, init, k); }
  }

  /** With the feature on and no conversion under way, the start-once body has run exactly when some thread that read no
      zero frequency began a conversion before any recalibration had stored its scale. */
  lemma StartedExactlyWhenEarly(b: Build, threads: nat, es: seq<Event>)
    requires b.background && Run(b, threads, es).Some? && AllRepresentable(es)
    requires AtRest(Run(b, threads, es).value)
    ensures Run(b, threads, es).value.starts == 1
       <==> exists k | 0 <= k < |es| ::
              es[k].Load? && EarlyLoad(es, k, es[k].thread) && ReadFrequency(es[k].thread, 0) !in es
  {
    RunSafe(b, threads, es);
    RunIsTraced(b, threads, es);
    var s := Run(b, threads, es).value;
    if s.starts == 1 {
      var t :| 0 <= t < |s.slow| && s.slow[t] == 1;
      assert ThreadSafe(b, s, t) && ThreadTraced(s, es, t);
      var k :| 0 <= k < |es| && EarlyLoad(es, k, t);
    }
    if k :| 0 <= k < |es| && es[k].Load? && EarlyLoad(es, k, es[k].thread) && ReadFrequency(es[k].thread, 0) !in es {
      var t := es[k].thread;
      ThreadOfEvent(b, threads, es, k);
      assert ThreadTraced(s, es, t);
      var v :| 0 <= v < |s.slow| && s.slow[v] == 1;
      assert ThreadSafe(b, s, v);
    }
  }

  /** A run in which every conversion begins after some recalibration has stored its scale never starts the thread. */
  lemma EarlyRecalibrationDisablesBackground(b: Build, threads: nat, es: seq<Event>)
    requires Run(b, threads, es).Some? && AllRepresentable(es)
    requires forall k | 0 <= k < |es| && es[k].Load? :: Replaced(es[..k])
    ensures Run(b, threads, es).value.starts == 0 && Run(b, threads, es).value.background == NotStarted
  {
    RunSafe(b, threads, es);
    RunIsTraced(b, threads, es);
    var s := Run(b, threads, es).value;
    forall t | 0 <= t < |s.slow|
      ensures s.slow[t] != 1
    {
      assert ThreadTraced(s, es, t);
    }
  }

  /** The word is set, nothing was started, and no conversion is on its way to starting it. */
  predicate FastOnly(s: State) {
    s.word != 0 && s.once == Fresh && s.background == NotStarted && s.starts == 0 && AtRest(s)
  }

  lemma StepStaysFastOnly(b: Build, s: State, e: Event, u: State)
    requires Safe(b, s) && FastOnly(s) && Step(b, s, e) == Some(u)
    ensures FastOnly(u)
  {
    StepKeepsWordSet(b, s, e, u);
    if !OfBackground(e) { assert !Converting(s.threads[e.thread]); }
  }

  /** From such a state on, no run ever starts the background thread, whatever conversions it makes. */
  lemma {:induction false} FastOnlyForever(b: Build, from: State, es: seq<Event>)
    requires Safe(b, from) && FastOnly(from)
    requires Continue(b, from, es).Some? && AllRepresentable(es)
    ensures FastOnly(Continue(b, from, es).value)
  {
    if es == [] {
    } else {
      var init := es[..|es| - 1];
      FastOnlyForever(b, from, init);
      ContinueSafe(b, from, init);
      StepStaysFastOnly(b, Continue(b, from, init).value, es[|es| - 1], Continue(b, from, es).value);
    }
  }

  // ----- an undisturbed call, and the memory it leaves -----

  /** The memory the calls share. */
  datatype Cells = Cells(word: u64, started: bool, running: bool, interval: u64)

  function CellsOf(s: State): Cells {
    Cells(s.word, s.once == Done, s.background != NotStarted, s.interval)
  }

  /** What a conversion that no other thread disturbs leaves behind and returns; `None` is the panic on a zero
      frequency. */
  function Converted(b: Build, c: Cells, freq: u64, spawned: bool): (Cells, Option<u64>) {
    if c.word != 0 then (c, Some(c.word))
    else if freq == 0 then (c, None)
    else if b.background && !c.started then
      (Cells(Scale(freq), true, c.running || spawned, c.interval), Some(Scale(freq)))
    else (c.(word := Scale(freq)), Some(Scale(freq)))
  }

  function Recalibrated(b: Build, c: Cells, freq: u64): Cells {
    if b.recalibrates && 0 < freq then c.(word := Scale(freq)) else c
  }

  function IntervalSet(c: Cells, secs: u64): Cells {
    c.(interval := Max(secs, 1))
  }

  class SharedCells {
    var word: u64
    var started: bool
    var running: bool
    var interval: u64

    function Contents(): Cells
      reads this
    {
      Cells(word, started, running, interval)
    }

    constructor ()
      ensures Contents() == Cells(0, false, false, 60)
    {
      word, started, running, interval := 0, false, false, DEFAULT_INTERVAL_SECS;
    }

    method EnsureThread(spawned: bool)
      modifies this`started, this`running
      ensures started
      ensures running <==> old(running) || (!old(started) && spawned)
    {
      if !started {
        started := true;
        if spawned { running := true; }
      }
    }

    method NanosPerTickQ32(b: Build, freq: u64, spawned: bool) returns (r: Option<u64>)
      modifies this
      ensures (Contents(), r) == Converted(b, old(Contents()), freq, spawned)
    {
      var cached := word;
      if cached != 0 { return Some(cached); }
      if freq == 0 { return None; }
      var scale := TryU64(NANOS_PER_SECOND_Q32 / freq, U64_MAX);
      word := scale;
      if b.background { EnsureThread(spawned); }
      return Some(scale);
    }

    method Recalibrate(b: Build, freq: u64)
      modifies this`word
      ensures Contents() == Recalibrated(b, old(Contents()), freq)
    {
      if b.recalibrates {
        if freq > 0 { word := TryU64(NANOS_PER_SECOND_Q32 / freq, U64_MAX); }
      }
    }

    method SetRecalibrationInterval(secs: u64)
      modifies this`interval
      ensures Contents() == IntervalSet(old(Contents()), secs)
    {
      interval := if secs < 1 then 1 else secs;
    }
  }

  /** The thread inside the start-once cell spawns, unless it has, and leaves. */
  lemma LeaveAlone(b: Build, from: State, es: seq<Event>, s: State, t: nat, spawned: bool)
    returns (longer: seq<Event>, u: State)
    requires Continue(b, from, es) == Some(s)
    requires t < |s.threads| == |s.slow| && (s.threads[t].Spawning? || s.threads[t].Spawned?)
    ensures longer == es + if s.threads[t].Spawning? then [Spawn(t, spawned), LeaveOnce(t)] else [LeaveOnce(t)]
    ensures Continue(b, from, longer) == Some(u)
    ensures u.threads == s.threads[t := Idle] && u.returned == s.returned + [s.threads[t].scale] && u.slow == s.slow
    ensures CellsOf(u) ==
            Cells(s.word, true, CellsOf(s).running || (s.threads[t].Spawning? && spawned), s.interval)
  {
    longer, u := es, s;
    if s.threads[t].Spawning? {
      longer, u := Play(b, from, longer, u, Spawn(t, spawned));
    }
    longer, u := Play(b, from, longer, u, LeaveOnce(t));
  }

  lemma HeldByAnother(b: Build, s: State, t: nat) returns (v: nat)
    requires Safe(b, s) && t < |s.threads| && s.threads[t].Ensuring?
    requires Step(b, s, EnterOnce(t)).None?
    ensures v < |s.threads| && v != t && (s.threads[v].Spawning? || s.threads[v].Spawned?)
  {
    v := s.once.thread;
    assert ThreadSafe(b, s, v) && ThreadSafe(b, s, t);
  }

  /** A thread blocked at the start-once cell waits for another that needs at most two steps of its own to open it. */
  lemma OnceNeverDeadlocks(b: Build, s: State, t: nat, spawned: bool) returns (es: seq<Event>, v: nat, u: State)
    requires Safe(b, s) && t < |s.threads| && s.threads[t].Ensuring?
    requires Step(b, s, EnterOnce(t)).None?
    ensures v != t && (es == [LeaveOnce(v)] || es == [Spawn(v, spawned), LeaveOnce(v)])
    ensures Continue(b, s, es) == Some(u) && Step(b, u, EnterOnce(t)).Some?
  {
    v := HeldByAnother(b, s, t);
    es, u := LeaveAlone(b, s, [], s, v, spawned);
    assert u.threads[t] == s.threads[t] && u.once == Done;
  }

  lemma EnsureAlone(b: Build, from: State, es: seq<Event>, s: State, t: nat, spawned: bool)
    returns (longer: seq<Event>, u: State)
    requires Continue(b, from, es) == Some(s)
    requires t < |s.threads| == |s.slow| && s.threads[t].Ensuring? && !s.once.Busy?
    ensures Continue(b, from, longer) == Some(u)
    ensures u.returned == s.returned + [s.threads[t].scale] && u.threads == s.threads[t := Idle]
    ensures CellsOf(u) == Cells(s.word, true, CellsOf(s).running || (s.once == Fresh && spawned), s.interval)
  {
    longer, u := Play(b, from, es, s, EnterOnce(t));
    if s.once == Fresh {
      longer, u := LeaveAlone(b, from, longer, u, t, spawned);
    }
  }

  /** From a computed scale on: the store, and the start-once cell where there is one. */
  lemma StoreAlone(b: Build, from: State, es: seq<Event>, s: State, t: nat, spawned: bool)
    returns (longer: seq<Event>, u: State)
    requires Continue(b, from, es) == Some(s)
    requires t < |s.threads| == |s.slow| && s.threads[t].HoldsScale? && !s.once.Busy?
    ensures Continue(b, from, longer) == Some(u)
    ensures u.returned == s.returned + [s.threads[t].scale] && u.threads == s.threads[t := Idle]
    ensures CellsOf(u) ==
            if b.background && s.once == Fresh
            then Cells(s.threads[t].scale, true, CellsOf(s).running || spawned, s.interval)
            else CellsOf(s).(word := s.threads[t].scale)
  {
    longer, u := Play(b, from, es, s, StoreScale(t));
    if b.background {
      longer, u := EnsureAlone(b, from, longer, u, t, spawned);
    }
  }

  lemma LoadStep(b: Build, s: State, t: nat)
    requires t < |s.threads| == |s.slow| && s.threads[t].Idle?
    ensures Step(b, s, Load(t)) == Some(if s.word != 0 then s.(returned := s.returned + [s.word])
                                        else s.(threads := s.threads[t := NeedsFrequency]))
  {
    assert s.threads[t := Idle] == s.threads;
  }

  lemma ReadStep(b: Build, s: State, t: nat, freq: u64, q: u64) returns (u: State)
    requires t < |s.threads| == |s.slow| && s.threads[t].NeedsFrequency?
    requires 0 < freq && q == Scale(freq)
    ensures Step(b, s, ReadFrequency(t, freq)) == Some(u)
    ensures u.threads == s.threads[t := HoldsScale(q)] && |u.slow| == |s.slow|
    ensures u.returned == s.returned && u.once == s.once && CellsOf(u) == CellsOf(s)
  {
    u := Step(b, s, ReadFrequency(t, freq)).value;
  }

  /** A conversion that finds the word unset and computes `q`. */
  lemma UnsetConversion(b: Build, s: State, t: nat, freq: u64, q: u64, spawned: bool)
    returns (es: seq<Event>, u: State)
    requires t < |s.threads| == |s.slow| && s.threads[t].Idle? && !s.once.Busy? && s.word == 0
    requires 0 < freq && q == Scale(freq)
    ensures Continue(b, s, es) == Some(u)
    ensures u.returned == s.returned + [q] && u.threads == s.threads
    ensures CellsOf(u) ==
            if b.background && s.once == Fresh
            then Cells(q, true, CellsOf(s).running || spawned, s.interval)
            else CellsOf(s).(word := q)
  {
    LoadStep(b, s, t);
    es, u := Play(b, s, [], s, Load(t));
    var held := ReadStep(b, u, t, freq, q);
    es, u := Play(b, s, es, u, ReadFrequency(t, freq));
    es, u := StoreAlone(b, s, es, held, t, spawned);
    assert held.threads[t := Idle] == s.threads;
  }

  lemma ZeroConversion(b: Build, s: State, t: nat) returns (es: seq<Event>, u: State)
    requires t < |s.threads| == |s.slow| && s.threads[t].Idle? && s.word == 0
    ensures Continue(b, s, es) == Some(u)
    ensures u == s.(threads := s.threads[t := Panicked])
  {
    LoadStep(b, s, t);
    es, u := Play(b, s, [], s, Load(t));
    es, u := Play(b, s, es, u, ReadFrequency(t, 0));
    assert s.threads[t := NeedsFrequency][t := Panicked] == s.threads[t := Panicked];
  }

  /** The sequential call is a run of the machine: from any state in which the thread is idle and the start-once cell
      is not being run, the conversion's own steps lead to exactly the memory and result of `Converted`. */
  lemma UndisturbedConversion(b: Build, s: State, t: nat, freq: u64, spawned: bool) returns (es: seq<Event>, u: State)
    requires t < |s.threads| == |s.slow| && s.threads[t].Idle? && !s.once.Busy?
    ensures Continue(b, s, es) == Some(u)
    ensures var (cells, r) := Converted(b, CellsOf(s), freq, spawned);
      && CellsOf(u) == cells
      && (r.Some? ==> u.returned == s.returned + [r.value] && u.threads == s.threads)
      && (r.None? ==> u.returned == s.returned && u.threads == s.threads[t := Panicked])
  {
    if s.word != 0 {
      LoadStep(b, s, t);
      es, u := Play(b, s, [], s, Load(t));
    } else if freq == 0 {
      es, u := ZeroConversion(b, s, t);
    } else {
      es, u := UnsetConversion(b, s, t, freq, Scale(freq), spawned);
    }
  }

  /** The first conversion of a process returns zero exactly for a frequency above `NANOS_PER_SECOND_Q32`, and then
      the word still reads as unset. */
  lemma ZeroScaleExactly(b: Build, freq: u64, spawned: bool)
    requires 0 < freq
    ensures var (cells, r) := Converted(b, CellsOf(Init(1)), freq, spawned);
      && r == Some(cells.word)
      && (cells.word == 0 <==> NANOS_PER_SECOND_Q32 < freq)
  {
    ScaleIsQuotient(freq);
  }

  lemma RecalibrationSteps(b: Build, s: State, t: nat, freq: u64) returns (begun: State, held: State)
    requires b.recalibrates && t < |s.threads| == |s.slow| && s.threads[t].Idle?
    ensures Step(b, s, BeginRecalibration(t)) == Some(begun) && Step(b, begun, Calibrated(t, freq)) == Some(held)
    ensures freq == 0 ==> held == s
    ensures freq != 0 ==>
      Step(b, held, StoreNewScale(t)) == Some(s.(word := Scale(freq), obtained := s.obtained + {freq}))
  {
    begun := At(s, t, Recalibrating);
    if freq == 0 {
      held := s;
      assert begun.threads[t := Idle] == s.threads;
    } else {
      var q := Scale(freq);
      held := s.(threads := s.threads[t := HoldsNewScale(q)], obtained := s.obtained + {freq});
      assert begun.threads[t := HoldsNewScale(q)] == held.threads;
      assert held.threads[t := Idle] == s.threads;
    }
  }

  lemma CalibrateAlone(b: Build, s: State, t: nat, freq: u64) returns (es: seq<Event>, u: State)
    requires b.recalibrates && t < |s.threads| == |s.slow| && s.threads[t].Idle?
    ensures Continue(b, s, es) == Some(u)
    ensures u == if freq == 0 then s else s.(word := Scale(freq), obtained := s.obtained + {freq})
  {
    var begun, held := RecalibrationSteps(b, s, t, freq);
    es, u := Play(b, s, [], s, BeginRecalibration(t));
    es, u := Play(b, s, es, begun, Calibrated(t, freq));
    if freq != 0 {
      es, u := Play(b, s, es, held, StoreNewScale(t));
    }
  }

  /** An undisturbed recalibration is likewise a run of the machine. */
  lemma UndisturbedRecalibration(b: Build, s: State, t: nat, freq: u64) returns (es: seq<Event>, u: State)
    requires t < |s.threads| == |s.slow| && s.threads[t].Idle?
    ensures Continue(b, s, es) == Some(u)
    ensures CellsOf(u) == Recalibrated(b, CellsOf(s), freq)
    ensures u.threads == s.threads && u.returned == s.returned && u.slow == s.slow
  {
    if b.recalibrates {
      es, u := CalibrateAlone(b, s, t, freq);
    } else {
      es, u := Play(b, s, [], s, BeginRecalibration(t));
    }
  }

  /** A conversion holding a scale it has not stored yet can store after a whole recalibration by another thread: the
      older scale then replaces the newer one. */
  lemma LateStoreWins(b: Build, s: State, t: nat, v: nat, newer: u64) returns (es: seq<Event>, mid: State, u: State)
    requires b.recalibrates && 0 < newer && t != v && t < |s.threads| == |s.slow| && v < |s.threads|
    requires s.threads[t].HoldsScale? && s.threads[v].Idle?
    ensures Continue(b, s, es) == Some(mid) && mid.word == Scale(newer)
    ensures Step(b, mid, StoreScale(t)) == Some(u) && u.word == s.threads[t].scale
  {
    es, mid := UndisturbedRecalibration(b, s, v, newer);
    assert mid.threads[t] == s.threads[t];
    u := Step(b, mid, StoreScale(t)).value;
  }

  // ----- the sleep interval -----

  /** Setting the interval is one step of the machine, which an idle thread can always take and which changes no
      phase. */
  lemma UndisturbedIntervalSet(b: Build, s: State, t: nat, secs: u64) returns (u: State)
    requires t < |s.threads| == |s.slow| && s.threads[t].Idle?
    ensures Step(b, s, SetInterval(t, secs)) == Some(u) && CellsOf(u) == IntervalSet(CellsOf(s), secs)
    ensures u.threads == s.threads && u.background == s.background && u.returned == s.returned
  {
    u := Step(b, s, SetInterval(t, secs)).value;
  }

  /** The last interval set in the run, clamped up to one second, or the default. */
  function IntervalAfter(es: seq<Event>): u64 {
    if es == [] then DEFAULT_INTERVAL_SECS
    else if es[|es| - 1].SetInterval? then Max(es[|es| - 1].secs, 1)
    else IntervalAfter(es[..|es| - 1])
  }

  lemma StepInterval(b: Build, s: State, e: Event)
    requires Step(b, s, e).Some?
    ensures Step(b, s, e).value.interval == if e.SetInterval? then Max(e.secs, 1) else s.interval
  {
  }

  lemma {:induction false} IntervalIsLastSet(b: Build, threads: nat, es: seq<Event>)
    requires Run(b, threads, es).Some?
    ensures Run(b, threads, es).value.interval == IntervalAfter(es)
  {
    if es == [] {
    } else {
      var init := es[..|es| - 1];
      IntervalIsLastSet(b, threads, init);
      StepInterval(b, Run(b, threads, init).value, es[|es| - 1]);
    }
  }

  /** A sleep takes the interval last set before it began; setting one during a sleep leaves that sleep alone. */
  lemma IntervalTakesEffectNextSleep(b: Build, threads: nat, es: seq<Event>, t: nat, secs: u64)
    requires Run(b, threads, es + [BackgroundLoads]).Some?
    ensures var sleeping := Run(b, threads, es + [BackgroundLoads]).value;
      && sleeping.background == Sleeping(IntervalAfter(es))
      && (Step(b, sleeping, SetInterval(t, secs)).Some? ==>
            Step(b, sleeping, SetInterval(t, secs)).value.background == sleeping.background)
  {
    assert (es + [BackgroundLoads])[..|es|] == es;
    IntervalIsLastSet(b, threads, es);
  }
}
