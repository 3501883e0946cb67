# A verified model of tach

`tach` replaces `std::time::Instant` by a raw counter read. This project models the three parts of the crate whose
behaviour is not visible from one function body, and proves what holds of them.

1. **The fixed-point clock.** A frequency is cached as the reciprocal `q = floor(1e9 * 2^32 / f)`; ticks become nanoseconds by
   a multiply and a 32-bit shift, durations become ticks by the inverse division (`Q32`, `Instants`, `Drift`, `Tolerances`,
   `Frequency`, `Accuracy`, with `Words` for machine words). Words are natural numbers with explicit 64- and 128-bit bounds;
   every absence of overflow that the Rust code relies on is a lemma.
2. **Calibration and the shared scale.** The spin loop with its five-sample median (`Calibration`, `OrderStatistics`), the
   atomic word that any thread initialises lazily and any thread or the background thread replaces (`ScaleCache`,
   `CacheHistory`, `CacheRuns`), and what replacements do to readings (`Recalibration`).
3. **The measurement harness.** The cross-thread monotonicity detector (`Tallies`, `Detector`, `Ceiling`, `OwnReads`,
   `TachDetector`), the single-thread pass (`PerThread`) and the skew summary (`Skew`).

The concurrent parts are step machines. A state holds the shared memory, each thread's place in its loop and a record of the
history; `Step` is deterministic in an event that names the thread and carries whatever the environment supplies (a clock
reading, a frequency, whether a spawn succeeded). A run is any sequence of enabled events, so a lemma over runs covers every
thread count and every interleaving. What a state records is tied to the events by functions that do not use `Step`
(`Detector.HistoryIsEvents`, `CacheHistory.MachineRecallsEvents`). Loops that the source runs on local variables or arrays
are methods proved against functions, and the machine's steps use those same functions.

What the environment supplies is a parameter: clock and counter readings, frequencies, elapsed-budget answers, spawn results.
Each atomic access is one step of a sequentially consistent interleaving; every protocol here uses single atomic words.
Detector and pass counters are unbounded naturals where the source uses `u64`; they grow by at most one per clock read.
The `i64` subtraction in the skew wraps, as in a release build; a debug build panics where it would wrap.

## Where the code and its documentation differ

The model follows the code.

- A single-thread violation is a read below the running maximum (src/bench.rs:132-140), not below the previous read as
  src/bench.rs:113-114 says: `PerThread.OneJumpCountedTwice` shows a clock reported with two violations and one fall over every
  measurement; the two counts agree exactly as `PerThread.DocumentedCountExactly` says.
- A cross-thread violation is a read below any earlier publication (src/bench.rs:188-197), not only some other thread's as
  src/bench.rs:154-157 says. For given readings the documented meaning holds in every interleaving if and only if no pass inside
  the bracket starts below an earlier pass of its own thread: `OwnReads.AttributedExactly`.
- The published median ppm is that of the middle sample in time order (src/bench.rs:304-305), not of the median skew:
  `Skew.PpmSampleNeedNotBeMedian`, exact condition in `Skew.PpmSampleIsMedianWhenRanked`.
- The attempt to start the background thread is not made by every first use (src/arch/mod.rs:39-43). Once no conversion is under
  way, it has been made exactly when some thread that read no zero frequency began a conversion before any recalibration had
  stored its scale: `CacheRuns.StartedExactlyWhenEarly`; the spawn itself may still fail, silently (src/background.rs:34-36). If
  all conversions begin later no attempt is ever made: `CacheRuns.EarlyRecalibrationDisablesBackground`.
- Measurements are mutually consistent (README.md:92) across a change of scale if and only if the scale did not fall:
  `Recalibration.ReadingsHoldExactly`; `Recalibration.ReadingGoesBack` is a run whose reading falls.
- The sub-microsecond round trip that src/lib.rs:202 attributes to the Q32 reciprocal, read as a bound over every instant and
  64-bit duration, holds at 1 MHz and from 1 001 002 Hz up, and for no other source: `Tolerances.MicrosecondTolerance`. The
  in-place test allows twice as much (src/lib.rs:221), yet subtracting after adding drifts no further than adding alone:
  `Drift.MeetsBothExactly`.
- `duration_to_ticks` is documented to fail when the shift overflows (src/instant.rs:350-353); `checked_shl` never fails here
  and the shift never overflows: `Instants.ShiftIsLossless`.

## Model

| member | source | states |
|---|---|---|
| `Q32.ScaleIsQuotient` | src/arch/mod.rs:26-36 | the cached word is the exact quotient, the saturation is dead, and it is zero (the unset mark) exactly above 1e9 * 2^32 Hz |
| `Q32.ProductFits` | src/instant.rs:341 | the 128-bit product of ticks and scale cannot overflow |
| `Q32.RefinesExactDivision` | src/instant.rs:335-342 | multiply-and-shift is at most the exact division and below it by at most one part in 2^32 of the ticks |
| `Q32.GigahertzIsIdentity` | src/arch/mod.rs:86-98 | a source fixed at 1 GHz converts every tick count to itself |
| `Q32.NearAdjoint` | src/instant.rs:340-367 | the two conversions are adjoint up to one rounding |
| `Instants.FastPathAgrees` | src/instant.rs:343-347 | the sub-second branch builds the same duration as the general one |
| `Instants.ShiftIsLossless` | src/instant.rs:355-363 | the shift by 32 keeps every bit of every duration |
| `Instants.TicksOfDuration` | src/instant.rs:355-367 | the conversion fails exactly for an unset scale or an ideal tick count beyond 64 bits, and is otherwise ideal |
| `Instants.SucceedsExactly` | src/instant.rs:82-94 | addition and subtraction fail exactly when the scale is unset or the ideal result leaves the word |
| `Instants.AddSubInverse` | src/instant.rs:82-94 | adding and subtracting one duration, in either order, restores the instant |
| `Instants.AddInTwoSteps` | src/instant.rs:82-85 | adding two durations one by one lands on or one tick before adding their sum, and differs in success only at the last tick |
| `Instants.NanosRoundTrip` | src/instant.rs:340-367 | nanoseconds to ticks and back never gain and lose at most the rounded-up length of a tick |
| `Instants.TicksRoundTrip` | src/instant.rs:340-367 | the same for ticks to nanoseconds and back, without saturation |
| `Instants.AddThenSince` | src/lib.rs:196-204 | a duration added and measured back never grows and loses at most the round-trip error or what it exceeds 64 bits of nanoseconds by |
| `Instants.AddThenSubThenSince` | src/lib.rs:206-222 | after `t += d; t -= e` the distance from the start is `d - e` to within one tick and one rounding, as far as that fits 64 bits |
| `Instants.InstantVar.AddAssign` | src/instant.rs:139-143 | in-place addition moves by the ideal ticks, or would panic and changes nothing |
| `Instants.InstantVar.SubAssign` | src/instant.rs:154-158 | in-place subtraction, likewise |
| `Instants.ElapsedAcrossWrap` | src/instant.rs:47-50 | elapsed converts the true difference of a counter read modulo 2^64, across wraparound |
| `Instants.CheckedSinceAgreesExactly` | src/instant.rs:57-67 | the checked difference equals elapsed exactly when the later word is not below the earlier, else it is none and the saturating one zero |
| `Instants.LapConservation` | src/instant.rs:57-67 | for any non-decreasing marks the laps fall short of the end-to-end time by at most one ns per inner mark, and exceed it exactly when their sum leaves 64 bits |
| `Instants.LapsWithinTotal` | README.md:92 | without saturation the laps sum to at most the end-to-end time |
| `Drift.LossBounded` | src/lib.rs:196-204 | no duration loses more than the rounded-up quotient of `q - gcd(q, 2^32)` by 2^32 when added and measured back |
| `Drift.LossAttained` | src/lib.rs:196-204 | some duration below `q` ns loses exactly that much |
| `Drift.MeetsExactly` | src/lib.rs:202-203 | a tolerance holds for all instants and 64-bit durations if and only if it exceeds that worst loss |
| `Drift.MeetsAlwaysExactly` | src/instant.rs:340-367 | over all addable durations it holds if and only if it also exceeds what the longest addable one has beyond 64 bits of nanoseconds |
| `Drift.MeetsBothExactly` | src/lib.rs:206-222 | for `t += d; t -= e` over all instants and all durations with a 64-bit difference, a tolerance on either side holds if and only if it exceeds the same worst loss |
| `Tolerances.MicrosecondTolerance` | src/lib.rs:196-204 | the one-microsecond test tolerance holds if and only if the frequency is 1 MHz or at least 1 001 002 Hz, for adding and for adding and subtracting |
| `Tolerances.TwoMicrosecondTolerance` | src/lib.rs:220-221 | the two-microsecond test tolerance holds if and only if the frequency is 500 kHz or at least 500 251 Hz |
| `Frequency.RecoveryIsClosure` | src/bench.rs:326-334 | the recovered frequency is the largest with the same scale, and re-deriving the scale from it changes nothing |
| `Frequency.RecoveryIsExactWhen` | src/bench.rs:326-334 | the original frequency comes back if and only if the division's remainder is below its quotient; always when f(f+1) fits, never above the limit |
| `Accuracy.ConversionError` | src/instant.rs:340-347 | a conversion under a frequency within E of the true rate is off by at most t*1e9*E/(f*F) + t/2^32 + 1 ns |
| `Accuracy.CalibratedConversionError` | src/calibration.rs:28-35 | calibration, scale and shift composed: three good samples of five bound the error of every unsaturated conversion, and give a non-zero frequency once the rate exceeds the allowed error |
| `Accuracy.EveryConversionWithin` | src/arch/mod.rs:30-46 | over every interleaving, if every frequency read is within E of the true rate, every scale used and the one left behind convert every unsaturated tick count within the error of a frequency read |
| `OrderStatistics.SortedIsUnique` | src/calibration.rs:34 | any ascending permutation is the sorted sequence, so any sort gives the same median |
| `OrderStatistics.RankIsExact` | src/bench.rs:299-303 | a value stands at a sorted position exactly when its counts below and at most straddle that position |
| `Calibration.TakeSample` | src/calibration.rs:17-31 | one sample begins at the given access, ends its spin at the first access at or after 10 000 000 ns and at no later one, and writes the estimate of that bracket |
| `Calibration.BracketsWellFormed` | src/calibration.rs:17-25 | each of the samples ends its spin at the first such access, and begins at the access after the previous sample's last |
| `Calibration.EstimateIsRate` | src/calibration.rs:26-31 | the estimate is the largest rate not above the ticks over the wall time around them, the largest word if that does not fit, and zero if the wall clock stood still |
| `Calibration.CalibrateFrequency` | src/calibration.rs:11-36 | the result is the middle of five estimates over consecutive disjoint brackets |
| `Calibration.EstimateAccuracy` | src/calibration.rs:17-31 | against an ideal counter an estimate is below rate + 100 and above rate - 101 - rate * gap / 10^7, with both clocks wrapping |
| `Calibration.ThreeOfFivePinMedian` | src/calibration.rs:34-35 | an interval holding any three of five values holds their median |
| `Calibration.MedianAccuracy` | src/calibration.rs:34-35 | three samples with a small gap bound the calibrated frequency whatever the other two are |
| `Calibration.CalibrationAccuracy` | src/calibration.rs:11-36 | the same for the five samples the loop takes, each of which has spun long enough |
| `Calibration.SteadyHost` | src/calibration.rs:11-36 | hosts meeting the accuracy hypotheses exist for every rate: one access a microsecond ends every spin and leaves a gap of 2 000 ns |
| `ScaleCache.ContinueSafe` | src/arch/mod.rs:30-46 | the protocol invariant is kept by every continuation of every safe state |
| `ScaleCache.CacheProtocol` | src/arch/mod.rs:30-46 | over every interleaving, the background thread running as soon as it is spawned, the word is unset or the scale of a frequency the run read, no conversion uses zero, each thread reads the frequency at most once, the start-once body runs at most once, a background thread implies a set word |
| `CacheHistory.MachineRecallsEvents` | src/arch/mod.rs:30-46 | over every interleaving the word is the scale of the frequency last read by whoever stored last, client or background; every scale returned, in order, is the set word loaded or the returning thread's own; nobody passes the start-once cell before it is completed; the background thread runs exactly when a spawn succeeded |
| `CacheHistory.OneSlowReadEach` | src/arch/mod.rs:30-37 | no thread reads a non-zero frequency twice on the conversion path |
| `CacheHistory.ClientCanMove` | src/arch/mod.rs:30-46 | a client that has not panicked can always take its next step, whatever it reads, except at the start-once cell while a thread is inside |
| `CacheHistory.BackgroundTurn` | src/background.rs:36-42 | one turn of the background loop is enabled, stores the scale it calibrated and touches no client |
| `CacheHistory.BackgroundIdleTurn` | src/arch/mod.rs:157-168 | a failed calibration, or a build whose recalibration does nothing, leaves everything as it was |
| `CacheRuns.WordStaysSet` | src/arch/mod.rs:31-37 | once set, the word is never unset again |
| `CacheRuns.OneScaleForAll` | README.md:92 | while all frequencies read give one scale, every conversion in the process uses it |
| `CacheRuns.StartedExactlyWhenEarly` | src/arch/mod.rs:31-43 | between conversions the start-once body has run if and only if some thread that read no zero frequency began a conversion before any recalibration stored its scale |
| `CacheRuns.OnceNeverDeadlocks` | src/background.rs:32-44 | a thread blocked at the start-once cell waits for another whose own one or two next steps open it |
| `CacheRuns.FastOnlyForever` | src/arch/mod.rs:31-43 | from a set word with nothing started no run ever starts the background thread |
| `CacheRuns.EarlyRecalibrationDisablesBackground` | src/arch/mod.rs:147-162 | in any run whose conversions all begin after some recalibration stored its scale, on whichever threads, the background thread never starts |
| `CacheRuns.LateStoreWins` | src/arch/mod.rs:35-37 | a conversion's late store replaces the newer scale of a whole recalibration |
| `CacheRuns.SharedCells.NanosPerTickQ32` | src/arch/mod.rs:30-46 | the memory and result of an undisturbed conversion, with the zero-frequency panic |
| `CacheRuns.SharedCells.Recalibrate` | src/arch/mod.rs:147-170 | the memory after an undisturbed recalibration on either kind of target |
| `CacheRuns.SharedCells.EnsureThread` | src/background.rs:32-44 | the start-once cell is done afterwards and spawns only the first time |
| `CacheRuns.UndisturbedConversion` | src/arch/mod.rs:30-46 | the sequential conversion is a run of the machine, from any state with the thread idle |
| `CacheRuns.UndisturbedRecalibration` | src/arch/mod.rs:147-162 | the sequential recalibration is a run of the machine |
| `CacheRuns.ZeroScaleExactly` | src/arch/mod.rs:31-37 | the first conversion returns zero and leaves the word unset exactly above 1e9 * 2^32 Hz |
| `CacheRuns.IntervalTakesEffectNextSleep` | src/background.rs:18-30 | a sleep takes the interval last set before it, clamped; setting one during it leaves it alone |
| `Recalibration.ReadingsFallOnlyWithScale` | src/instant.rs:47-50 | over any run of counter advances and scale replacements, elapsed from one start falls only if the scale fell, and by at most the change's cost on the ticks first read |
| `Recalibration.ReadingAtAdvance` | src/instant.rs:47-50 | after an advance the reading converts all ticks gained under the scale in use |
| `Recalibration.SteadyScaleNeverFalls` | README.md:92 | without a replacement in between, elapsed never falls |
| `Recalibration.ReplacementRewinds` | src/arch/mod.rs:156-160 | replacing the scale by a smaller one takes the reading back by that cost to within one ns, so by at least one once the cost is 2^32 units |
| `Recalibration.ConversionsNeverFallExactly` | src/instant.rs:340-347 | over all counter readings a later conversion is never below an earlier one if and only if the scale did not fall |
| `Recalibration.ReadingGoesBack` | src/arch/mod.rs:156-160 | for every fall of the scale there is a run whose reading goes back by exactly that many ns |
| `Recalibration.ReadingsHoldExactly` | README.md:92 | over every run reading under one scale and later under another, readings from one start hold if and only if the scale did not fall |
| `Recalibration.ReadingsAcrossRun` | src/arch/mod.rs:30-46 | over any interleaving with frequencies in a band, any conversion of at least as many ticks as another is below it by at most what the band's scales differ |
| `Tallies.FindBucket` | src/bench.rs:201-206 | the loop stops at the first bucket whose bound, of 50, 500, 5 000, 50 000 and the largest word, is not exceeded |
| `Tallies.DroppedExactly` | src/bench.rs:191-194 | a pass is dropped exactly when its second read is more than 10 000 ns after its first |
| `Tallies.RunWorker` | src/bench.rs:177-210 | the worker's loop over its passes computes their tally |
| `Tallies.CountedKeepsAccounts` | src/bench.rs:190-207 | counting a pass keeps the histogram, the totals and the worst violation consistent |
| `Tallies.JoinAll` | src/bench.rs:218-237 | violations, reads, drops and each histogram bucket of the joined report are the plain sums of the threads' own, the list holds their violations in order, and the worst violation bounds theirs and is one of them |
| `Tallies.JoinedAccounts` | src/bench.rs:218-237 | the joined total is consistent when every thread's tally is |
| `Tallies.JoinedAddsUp` | src/bench.rs:218-237 | the per-thread list is the threads' violations and adds up to the total |
| `Tallies.JoinedSums` | src/bench.rs:227-236 | each figure of the total is the plain sum of the threads' own, for any number of threads |
| `Tallies.JoinedWorst` | src/bench.rs:230-232 | the reported worst violation bounds every thread's and is some thread's |
| `Detector.RunKeepsInvariant` | src/bench.rs:186-200 | in every reachable state the shared word is the maximum of all publications and each returned `prev` that of exactly the earlier ones |
| `Detector.HistoryIsEvents` | src/bench.rs:186-200 | over every run the flag, each publication and each completed pass are exactly what the events say: a publication is its thread's last first read, a pass that read, the maximum published before it and the second read, also after the flag is set |
| `OwnReads.ReadsAreEvents` | src/bench.rs:187-189 | over every run the readings recorded for a thread are the values of its first and second reads in order |
| `Detector.DetectorIsExact` | src/bench.rs:186-209 | each thread's counters equal an offline reading of the events: violations, passes, drops, each histogram bucket by the largest earlier publication, and the worst margin over all earlier publications |
| `Detector.ReportIsExact` | src/bench.rs:218-252 | each figure of the joined report is a count over the passes of the whole run, read off the events |
| `Detector.ReportedWorstIsExact` | src/bench.rs:230-232 | the reported worst violation is the largest margin over all threads, passes and earlier publications |
| `Detector.WorkerCanMove` | src/bench.rs:186-209 | a worker in its loop can always take its next step, whatever it reads and whether or not the flag is set |
| `Detector.ReportAccounts` | src/bench.rs:218-252 | after any run the joined report is consistent and adds up thread by thread |
| `Detector.NoPassBegunAfterStop` | src/bench.rs:186-216 | once the stop flag is set no worker begins another pass |
| `Detector.CheckAfterStopIsLast` | src/bench.rs:186 | a look at the flag after it is set is the last thing a worker does |
| `Ceiling.BracketCeiling` | src/bench.rs:191-208 | readings at most b behind and a ahead of one non-decreasing clock give no reported violation above 10 000 + a + b ns, and an empty last bucket while that is at most 50 000 |
| `Ceiling.MarginWithinBracket` | src/bench.rs:191-197 | with exact readings a violation never exceeds its own bracket |
| `Ceiling.LargerReportRefutesClock` | BENCHMARKS.md:237 | a larger reported value refutes every such clock |
| `Ceiling.CeilingIsReached` | BENCHMARKS.md:237 | the ceiling is attained for every a and b |
| `OwnReads.ViolationsComeFromOthers` | src/bench.rs:154-157 | if no pass inside the bracket starts below an earlier one of its own thread, every counted violation comes from a larger earlier publication of another thread, which is also the value it is measured against, in every interleaving |
| `OwnReads.AloneAgainstItself` | src/bench.rs:187-200 | if some pass does, an interleaving counts it while no other thread has published |
| `OwnReads.AttributedExactly` | src/bench.rs:154-157 | for any readings of any number of threads the documented cause holds in every interleaving if and only if each thread keeps its own order, and so does the stronger reading that the value measured against is another thread's |
| `TachDetector.NowIsNanos` | src/bench.rs:365-369 | the harness's reading of this clock is the converted distance from the anchor and never saturates |
| `TachDetector.CounterSlopCeiling` | src/bench.rs:159-254 | counters within k ticks of a global one under one scale report at most the bracket plus twice the length of k ticks |
| `TachDetector.RecalibratedCeiling` | src/bench.rs:386-410 | with recalibration moving the scale within a band, at most the bracket, the length of k ticks at both ends, and what the band differs by over the run |
| `TachDetector.SingleThreadCeiling` | src/bench.rs:122-149 | the single-thread measurement of this clock reports at most what k ticks and the band differ by, and nothing at all under one counter and one scale |
| `PerThread.MeasurePerThread` | src/bench.rs:122-149 | one pass computes the largest fall over all pairs and the reads below an earlier one, and stops after one more than a positive multiple of 65 536 reads, at the first expired look |
| `PerThread.CleanExactlyWhenMonotone` | src/bench.rs:132-140 | both figures are zero exactly when the reads never fall |
| `PerThread.DocumentedCountExactly` | src/bench.rs:113-114 | the count is at least that of consecutive falls, and equal exactly when no read recovers only partly |
| `PerThread.OneJumpCountedTwice` | src/bench.rs:132-140 | a clock with one backward step counts as two violations and one consecutive fall over every number of reads from three on |
| `PerThread.JumpReport` | src/bench.rs:122-149 | every measurement of that clock, whenever its time runs out, reports two violations |
| `Skew.MeasureSkew` | src/bench.rs:270-316 | the summary's samples, order statistics and published sample; the empty list panics |
| `Skew.ElapsedIsAdvance` | src/bench.rs:288-289 | each elapsed time takes its own clock from its start read to its end read, or is zero if that went back |
| `Skew.EqualAdvanceHasNoSkew` | src/bench.rs:279-305 | a clock that advances as far as the reference in every sample is reported with no skew at all, whatever the two anchors |
| `Skew.SkewIsWrapped` | src/bench.rs:290 | the skew is the one signed 64-bit number that differs from the true difference by whole turns |
| `Skew.SkewIsExactWhenItFits` | src/bench.rs:288-290 | the skew is the true difference if and only if that fits 64 signed bits |
| `Skew.ReferenceClockNeverAhead` | src/bench.rs:279-290 | bracketed by reference reads, a clock showing reference time has a skew of at most zero, exactly up to a wrapped difference |
| `Skew.ExtremesBound` | src/bench.rs:302-303 | the summary's extremes are attained and bound every sample |
| `Skew.MedianSplits` | src/bench.rs:299-301 | more than half the summary's samples are at most its median and at most half are below it |
| `Skew.PpmSampleIsMiddle` | src/bench.rs:304-305 | the published ppm sample is the middle one in the order taken, the upper of the two when even |
| `Skew.PpmSampleIsMedianWhenRanked` | src/bench.rs:304-305 | the summary's ppm sample has its median skew if and only if that sample's own skew splits the samples as a median does |
| `Skew.PpmSampleNeedNotBeMedian` | src/bench.rs:304-305 | three brackets of reads whose summary publishes the ppm of the largest skew, not of the median |

## Left out

- Counter and barrier instructions, target dispatch and the frequency queries of each platform (src/arch/*.rs besides mod.rs): hardware and foreign calls; ticks and frequencies are inputs.
- The start barrier of the detector (src/bench.rs:169-184): workers of the model may start at any time, which includes every barrier-aligned run.
- Weaker memory orders: each atomic access is one step of an interleaving.
- `OrderedInstant` (src/instant.rs:217-333): the same arithmetic as `Instant` over the same conversions; its ordering guarantee is the hardware's.
- The Windows mismatch between counter and frequency (README.md:85): accuracy claims assume both describe one clock.
- Floating-point ppm values, serialisation, host information and argument parsing of the harness.
- The warm-up reads and the wall-clock durations reported by the harness: they affect no other figure.
- Other crates' clocks: a clock is any sequence of readings.
- Liveness of the detector and the background loop: the machines say what may happen, not that a scheduler makes it happen.
- CalibrateFrequency: the spin loop is given, for each start, an access at which it would stop, which is what its termination needs of the clock.
- CalibratedConversionError: assumes each good sample is short enough that neither 64-bit clock makes a full turn within it.
- MeasurePerThread: is given a look at which the time budget has expired, without which the source loops for ever.
