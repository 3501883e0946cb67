/** The shared scale word and the background recalibrator, as a step machine over any number of client threads. */
module ScaleCache {
  import opened Words
  import opened Q32

  const DEFAULT_INTERVAL_SECS: u64 := 60

  /** What the target and the features compile in: whether recalibration does anything, and whether there is a
      background thread. */
  datatype Build = Build(recalibrates: bool, background: bool)

  /** Where a client thread stands. */
  datatype Phase =
    | Idle
    | NeedsFrequency             // a conversion loaded zero
    | HoldsScale(scale: u64)     // computed by a conversion, not yet stored
    | Ensuring(scale: u64)       // stored, about to enter the start-once cell
    | Spawning(scale: u64)       // inside the start-once cell, about to spawn
    | Spawned(scale: u64)        // still inside it, the background thread possibly running already
    | Recalibrating
    | HoldsNewScale(scale: u64)  // computed by a recalibration, not yet stored
    | Panicked                   // divided by a zero frequency

  datatype Once = Fresh | Busy(thread: nat) | Done

  datatype Background = NotStarted | Looping | Sleeping(secs: u64) | Calibrating | HoldsNext(scale: u64)

  /** `obtained` holds the non-zero frequencies read so far, `returned` the scales conversions have used, `slow`
      how often each thread read the frequency on the conversion path, `starts` how often the start-once body
      was begun. */
  datatype State = State(word: u64, once: Once, background: Background, interval: u64, threads: seq<Phase>,
                         obtained: set<u64>, returned: seq<u64>, slow: seq<nat>, starts: nat)

  datatype Event =
    | Load(thread: nat)
    | ReadFrequency(thread: nat, freq: u64)
    | StoreScale(thread: nat)
    | EnterOnce(thread: nat)
    | Spawn(thread: nat, spawned: bool)
    | LeaveOnce(thread: nat)
    | BeginRecalibration(thread: nat)
    | Calibrated(thread: nat, freq: u64)
    | StoreNewScale(thread: nat)
    | SetInterval(thread: nat, secs: u64)
    | BackgroundLoads
    | BackgroundWakes
    | BackgroundCalibrated(freq: u64)
    | BackgroundStores

  function Init(threads: nat): State {
    State(0, Fresh, NotStarted, DEFAULT_INTERVAL_SECS, seq(threads, _ => Idle), {}, [], seq(threads, _ => 0), 0)
  }

  function At(s: State, t: nat, p: Phase): State
    requires t < |s.threads|
  {
    s.(threads := s.threads[t := p])
  }

  function Return(s: State, t: nat, scale: u64): State
    requires t < |s.threads|
  {
    At(s, t, Idle).(returned := s.returned + [scale])
  }

  function Client(b: Build, s: State, e: Event, t: nat): Option<State>
    requires t < |s.threads| == |s.slow|
  {
    match (e, s.threads[t])
    case (Load(_), Idle) => Some(if s.word != 0 then Return(s, t, s.word) else At(s, t, NeedsFrequency))
    case (ReadFrequency(_, freq), NeedsFrequency) =>
      Some(if freq == 0 then At(s, t, Panicked)
           else At(s, t, HoldsScale(Scale(freq))).(obtained := s.obtained + {freq}, slow := s.slow[t := s.slow[t] + 1]))
    case (StoreScale(_), HoldsScale(q)) =>
      var stored := s.(word := q);
      Some(if b.background then At(stored, t, Ensuring(q)) else Return(stored, t, q))
    case (EnterOnce(_), Ensuring(q)) =>
      (match s.once
       case Done => Some(Return(s, t, q))
       case Fresh => Some(At(s, t, Spawning(q)).(once := Busy(t), starts := s.starts + 1))
       case Busy(_) => None)  // blocked until the running initialiser is done
    case (Spawn(_, spawned), Spawning(q)) =>
      Some(At(s, t, Spawned(q)).(background := if spawned then Looping else s.background))
    case (LeaveOnce(_), Spawned(q)) => Some(Return(s.(once := Done), t, q))
    case (BeginRecalibration(_), Idle) => Some(if b.recalibrates then At(s, t, Recalibrating) else s)
    case (Calibrated(_, freq), Recalibrating) =>
      Some(if freq == 0 then At(s, t, Idle)
           else At(s, t, HoldsNewScale(Scale(freq))).(obtained := s.obtained + {freq}))
    case (StoreNewScale(_), HoldsNewScale(q)) => Some(At(s, t, Idle).(word := q))
    case (SetInterval(_, secs), Idle) => Some(s.(interval := Max(secs, 1)))
    case _ => None
  }

  function BackgroundStep(b: Build, s: State, e: Event): Option<State> {
    match (e, s.background)
    case (BackgroundLoads, Looping) => Some(s.(background := Sleeping(s.interval)))
    case (BackgroundWakes, Sleeping(_)) => Some(s.(background := if b.recalibrates then Calibrating else Looping))
    case (BackgroundCalibrated(freq), Calibrating) =>
      Some(if freq == 0 then s.(background := Looping)
           else s.(background := HoldsNext(Scale(freq)), obtained := s.obtained + {freq}))
    case (BackgroundStores, HoldsNext(q)) => Some(s.(background := Looping, word := q))
    case _ => None
  }

  predicate OfBackground(e: Event) {
    e.BackgroundLoads? || e.BackgroundWakes? || e.BackgroundCalibrated? || e.BackgroundStores?
  }

  function Step(b: Build, s: State, e: Event): Option<State> {
    if OfBackground(e) then BackgroundStep(b, s, e)
    else if e.thread < |s.threads| == |s.slow| then Client(b, s, e, e.thread)
    else None
  }

  function Continue(b: Build, from: State, es: seq<Event>): Option<State> {
    if es == [] then Some(from)
    else
      match Continue(b, from, es[..|es| - 1])
      case None => None
      case Some(s) => Step(b, s, es[|es| - 1])
  }

  function Run(b: Build, threads: nat, es: seq<Event>): Option<State> {
    Continue(b, Init(threads), es)
  }

  lemma Play(b: Build, from: State, es: seq<Event>, s: State, e: Event) returns (longer: seq<Event>, u: State)
    requires Continue(b, from, es) == Some(s) && Step(b, s, e).Some?
    ensures longer == es + [e] && Continue(b, from, longer) == Some(u) && Step(b, s, e) == Some(u)
  {
    longer, u := es + [e], Step(b, s, e).value;
    assert longer[..|es|] == es;
  }

  /** Every frequency obtained in the run is small enough for a non-zero scale; zero is allowed and takes the error
      path. */
  predicate Representable(e: Event) {
    e.ReadFrequency? || e.Calibrated? || e.BackgroundCalibrated? ==> e.freq <= NANOS_PER_SECOND_Q32
  }

  predicate AllRepresentable(es: seq<Event>) {
    forall k | 0 <= k < |es| :: Representable(es[k])
  }

  // ----- safety over every run -----

  ghost predicate FromObtained(q: u64, obtained: set<u64>) {
    q != 0 && exists f :: f in obtained && 0 < f && Scale(f) == q
  }

  /** A thread between conversions that has taken the slow path left a scale behind and the start-once cell done. */
  predicate SlowIsFinished(b: Build, s: State, t: nat)
    requires t < |s.slow|
  {
    s.slow[t] == 1 ==> s.word != 0 && (b.background ==> s.once == Done)
  }

  ghost predicate ThreadSafe(b: Build, s: State, t: nat)
    requires t < |s.threads| == |s.slow|
  {
    && s.slow[t] <= 1
    && (s.once == Busy(t) <==> s.threads[t].Spawning? || s.threads[t].Spawned?)
    && match s.threads[t]
       case NeedsFrequency => s.slow[t] == 0
       case Panicked => s.slow[t] == 0
       case HoldsScale(q) => s.slow[t] == 1 && FromObtained(q, s.obtained)
       case Ensuring(q) => s.slow[t] == 1 && FromObtained(q, s.obtained) && s.word != 0
       case Spawning(q) => s.slow[t] == 1 && FromObtained(q, s.obtained) && s.word != 0 && s.background == NotStarted
       case Spawned(q) => s.slow[t] == 1 && FromObtained(q, s.obtained) && s.word != 0
       case HoldsNewScale(q) => FromObtained(q, s.obtained) && SlowIsFinished(b, s, t)
       case _ => SlowIsFinished(b, s, t)
  }

  /** Some conversion has found the word unset and read a frequency. */
  predicate SomeSlow(s: State) {
    exists t | 0 <= t < |s.slow| :: s.slow[t] == 1
  }

  /** Every scale in use comes from a frequency obtained, and no interval is below a second. */
  ghost predicate ValuesSafe(s: State) {
    && (s.word == 0 || FromObtained(s.word, s.obtained))
    && (forall q | q in s.returned :: FromObtained(q, s.obtained))
    && (s.background.HoldsNext? ==> FromObtained(s.background.scale, s.obtained))
    && 1 <= s.interval && (s.background.Sleeping? ==> 1 <= s.background.secs)
  }

  /** The start-once body is begun at most once, by a conversion on the slow path, and only it starts the thread. */
  predicate OnceSafe(s: State) {
    && (s.once.Busy? ==> s.once.thread < |s.threads|)
    && (s.starts == if s.once == Fresh then 0 else 1)
    && (s.once != Fresh ==> s.word != 0 && SomeSlow(s))
    && (s.background != NotStarted ==> s.once != Fresh)
  }

  ghost predicate Safe(b: Build, s: State) {
    && |s.threads| == |s.slow|
    && ValuesSafe(s)
    && OnceSafe(s)
    && (forall t | 0 <= t < |s.threads| :: ThreadSafe(b, s, t))
  }

  lemma ScaleFromObtained(freq: u64, obtained: set<u64>)
    requires 0 < freq <= NANOS_PER_SECOND_Q32 && freq in obtained
    ensures FromObtained(Scale(freq), obtained)
  {
    ScaleIsQuotient(freq);
  }

  lemma ObtainedGrows(q: u64, before: set<u64>, after: set<u64>)
    requires FromObtained(q, before) && before <= after
    ensures FromObtained(q, after)
  {
    var f :| f in before && 0 < f && Scale(f) == q;
    assert f in after;
  }

  lemma ThreadSafeKept(b: Build, s: State, u: State, t: nat)
    requires t < |s.threads| == |s.slow| == |u.threads| == |u.slow|
    requires ThreadSafe(b, s, t) && u.threads[t] == s.threads[t] && u.slow[t] == s.slow[t]
    requires s.obtained <= u.obtained && (s.word != 0 ==> u.word != 0)
    requires s.once == Done ==> u.once == Done
    requires s.once == Busy(t) <==> u.once == Busy(t)
    requires s.threads[t].Spawning? ==> u.background == s.background
    ensures ThreadSafe(b, u, t)
  {
    match s.threads[t]
    case HoldsScale(q) => ObtainedGrows(q, s.obtained, u.obtained);
    case Ensuring(q) => ObtainedGrows(q, s.obtained, u.obtained);
    case Spawning(q) => ObtainedGrows(q, s.obtained, u.obtained);
    case Spawned(q) => ObtainedGrows(q, s.obtained, u.obtained);
    case HoldsNewScale(q) => ObtainedGrows(q, s.obtained, u.obtained);
    case _ =>
  }

  lemma OthersSafe(b: Build, s: State, e: Event, u: State)
    requires Safe(b, s) && !OfBackground(e) && Step(b, s, e) == Some(u)
    requires s.word != 0 ==> u.word != 0
    ensures forall v | 0 <= v < |u.threads| && v != e.thread :: ThreadSafe(b, u, v)
  {
    assert ThreadSafe(b, s, e.thread);
    forall v | 0 <= v < |u.threads| && v != e.thread
      ensures ThreadSafe(b, u, v)
    {
      assert ThreadSafe(b, s, v);
      ThreadSafeKept(b, s, u, v);
    }
  }

  /** Scales stay obtained, and those an event computes are. */
  lemma ObtainedOnStep(b: Build, s: State, e: Event, u: State)
    requires Representable(e) && Step(b, s, e) == Some(u)
    ensures (e.ReadFrequency? || e.Calibrated? || e.BackgroundCalibrated?) && e.freq != 0 ==>
      FromObtained(Scale(e.freq), u.obtained)
    ensures forall q | FromObtained(q, s.obtained) :: FromObtained(q, u.obtained)
  {
    if (e.ReadFrequency? || e.Calibrated? || e.BackgroundCalibrated?) && e.freq != 0 {
      ScaleFromObtained(e.freq, u.obtained);
    }
    forall q | FromObtained(q, s.obtained)
      ensures FromObtained(q, u.obtained)
    {
      ObtainedGrows(q, s.obtained, u.obtained);
    }
  }

  lemma OwnStepSafe(b: Build, s: State, e: Event, u: State)
    requires Safe(b, s) && Representable(e) && !OfBackground(e) && Step(b, s, e) == Some(u)
    ensures s.word != 0 ==> u.word != 0
    ensures ThreadSafe(b, u, e.thread)
  {
    assert ThreadSafe(b, s, e.thread);
    ObtainedOnStep(b, s, e, u);
  }

  lemma ValuesStaySafe(b: Build, s: State, e: Event, u: State)
    requires Safe(b, s) && Representable(e) && !OfBackground(e) && Step(b, s, e) == Some(u)
    ensures ValuesSafe(u)
  {
    assert ThreadSafe(b, s, e.thread);
    ObtainedOnStep(b, s, e, u);
  }

  lemma OnceStaysSafe(b: Build, s: State, e: Event, u: State)
    requires Safe(b, s) && !OfBackground(e) && Step(b, s, e) == Some(u)
    requires s.word != 0 ==> u.word != 0
    ensures OnceSafe(u)
  {
    assert ThreadSafe(b, s, e.thread);
    if u.once != Fresh {
      var v :| 0 <= v < |s.slow| && s.slow[v] == 1;
      assert ThreadSafe(b, s, v);
      assert u.slow[v] == 1;
    }
  }

  lemma ClientStepSafe(b: Build, s: State, e: Event, u: State)
    requires Safe(b, s) && Representable(e) && !OfBackground(e) && Step(b, s, e) == Some(u)
    ensures Safe(b, u)
  {
    ValuesStaySafe(b, s, e, u);
    OwnStepSafe(b, s, e, u);
    OthersSafe(b, s, e, u);
    OnceStaysSafe(b, s, e, u);
    assert |u.threads| == |u.slow|;
  }

  lemma BackgroundStepSafe(b: Build, s: State, e: Event, u: State)
    requires Safe(b, s) && Representable(e) && OfBackground(e) && Step(b, s, e) == Some(u)
    ensures Safe(b, u)
  {
    ObtainedOnStep(b, s, e, u);
    forall v | 0 <= v < |u.threads|
      ensures ThreadSafe(b, u, v)
    {
      assert ThreadSafe(b, s, v);
      ThreadSafeKept(b, s, u, v);
    }
  }

  lemma StepSafe(b: Build, s: State, e: Event, u: State)
    requires Safe(b, s) && Representable(e) && Step(b, s, e) == Some(u)
    ensures Safe(b, u)
  {
    if OfBackground(e) { BackgroundStepSafe(b, s, e, u); } else { ClientStepSafe(b, s, e, u); }
  }

  lemma {:induction false} ContinueSafe(b: Build, from: State, es: seq<Event>)
    requires Safe(b, from) && Continue(b, from, es).Some? && AllRepresentable(es)
    ensures Safe(b, Continue(b, from, es).value)
  {
    if es == [] {
    } else {
      var init, e := es[..|es| - 1], es[|es| - 1];
      ContinueSafe(b, from, init);
      StepSafe(b, Continue(b, from, init).value, e, Continue(b, from, es).value);
    }
  }

  lemma InitSafe(b: Build, threads: nat)
    ensures Safe(b, Init(threads))
  {
  }

  predicate Reads(e: Event, freq: u64) {
    (e.ReadFrequency? || e.Calibrated? || e.BackgroundCalibrated?) && e.freq == freq
  }

  /** A frequency the run read, on whichever path. */
  predicate WasRead(es: seq<Event>, freq: u64) {
    exists k | 0 <= k < |es| :: Reads(es[k], freq)
  }

  lemma {:induction false} ObtainedWasRead(b: Build, threads: nat, es: seq<Event>)
    requires Run(b, threads, es).Some?
    ensures forall f | f in Run(b, threads, es).value.obtained :: 0 < f && WasRead(es, f)
  {
    if es == [] {
    } else {
      var n := |es| - 1;
      var init, e := es[..n], es[n];
      ObtainedWasRead(b, threads, init);
      var s, u := Run(b, threads, init).value, Run(b, threads, es).value;
      forall f | f in u.obtained
        ensures 0 < f && WasRead(es, f)
      {
        if f in s.obtained {
          var k :| 0 <= k < n && Reads(init[k], f);
          assert Reads(es[k], f);
        } else {
          assert Reads(es[n], f);
        }
      }
    }
  }

  /** `q` is the non-zero scale of a frequency the run read. */
  ghost predicate ScaleRead(q: u64, es: seq<Event>) {
    q != 0 && exists f: u64 :: 0 < f && WasRead(es, f) && Scale(f) == q
  }

  /** Over every interleaving: the word is unset or the scale of a frequency read in the run, every conversion uses
      such a scale and never zero, each thread reads the frequency at most once on the conversion path, the start-once
      body runs at most once, and a background thread implies a set word. */
  lemma CacheProtocol(b: Build, threads: nat, es: seq<Event>)
    requires Run(b, threads, es).Some? && AllRepresentable(es)
    ensures var s := Run(b, threads, es).value;
      && (s.word == 0 || ScaleRead(s.word, es))
      && (forall q | q in s.returned :: ScaleRead(q, es))
      && (forall t | 0 <= t < |s.slow| :: s.slow[t] <= 1)
      && s.starts <= 1
      && (s.background != NotStarted ==> s.word != 0 && s.starts == 1)
      && 1 <= s.interval && (s.background.Sleeping? ==> 1 <= s.background.secs)
  {
    InitSafe(b, threads);
    ContinueSafe(b, Init(threads), es);
    ObtainedWasRead(b, threads, es);
    var s := Run(b, threads, es).value;
    forall t | 0 <= t < |s.slow|
      ensures s.slow[t] <= 1
    {
      assert ThreadSafe(b, s, t);
    }
  }
}
