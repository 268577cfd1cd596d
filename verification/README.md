# Malleus: a verified model

Malleus is a real-time kernel with a manifest-driven tool chain. This project models its four most
intricate mechanisms in Dafny and proves what they promise.

* **The schedulability verdict.** `ResponseTime` is the analyser as written: saturating 64-bit words,
  the early exit, the limit of 1000 rounds. `Recurrence` is the equation over unbounded integers that
  it is meant to solve. `Scheduler` is a step model of the declared policy (strictly preemptive, fixed
  priority, first in first out within a level, one tick of work per step), in which jobs arrive in any
  legal pattern and take any legal time. `ScheduleSoundness` proves that a `Pass` bounds every run;
  `ScheduleExactness` proves that a `Fail` is a deadline missed in a run that exists, and says exactly
  when each claim holds. `AnalysisLaws` relates several verdicts: the round limit, sustainability,
  order, and verdicts against utilisation. `VerdictReading` reads every verdict, and every reason for
  withholding one, off the unbounded iterates and the declarations; `UtilisationLaws` does the same for the
  reported utilisation of any task set. `Staircase` shows where sustainability ends. `ReadyQueue` is the bitmap
  that dispatches, over the words of `Bits`.
* **The pipeline that feeds it.** `Units` parses and prints durations and sizes, and `UnitLaws` says what
  each unit is worth. `Ticks` converts nanoseconds to ticks, `Manifest` specifies the validator's report,
  `Validation` is the validator's loops, `ReportContents` says which findings a manifest gets, one by one,
  `ReportOrder` in what order, `WellFormedness` reduces a clean report to one declarative predicate, and
  `Pipeline` composes them as the command line does. `ValidatedTimings` says which timing sets get through.
  `TickRounding` proves which verdicts survive the conversion, `RoundingExactness` that its conditions are
  exact, `LevelExactness` when a passing report is true, and `Warnings` what the absence of two findings
  tells. `Example` is a small system that meets every hypothesis of the end-to-end theorem.
* **Periodic activation.** `Activation` proves the constant-time catch-up equal to the naive loop.
* **Reset and fault capture.** `Startup` is the reset stub over a word array, `FaultCapture` the
  protocol of the state word and the evidence words, with a fault or a reset between any two stores
  and RAM that outlives resets, and `CrashConsistency` the runs that reach and break its guarantees.

`Words` holds the fixed-width words. Where the sources change state in place, so does the model: the
analyser, the validator's report, `Period`, `ReadySet` and the reset stub are methods with loops over
mutable state, each proved equal to a specification function that the lemmas are about.

## Findings

* A `Pass` with an effective deadline of `u64::MAX` can be wrong, because a saturated iterate can equal
  that deadline. Every smaller deadline is safe (`DeadlineBelowMaxIsNeeded`).
* Tasks that share a priority, or a name, are skipped when interference is collected, so a `Pass` bounds
  every run if and only if no such rival can use the CPU (`PassBoundsEveryRunIff`). Given names and levels,
  every passing report is true, of deadlines and of utilisation, if and only if no two tasks share a level
  (`PassingReportIsTrueIff`, `DeadlinesMetIff`, `UtilisationFitsIff`). A warning is drawn if and only if two
  tasks on one level both declare a deadline (`SharedLevelWarnedIff`): without one, a manifest with no finding
  at all can be reported `PASS` and miss its deadlines (`SilentFalsePass`).
* The documentation says that the recurrence "either converges or exceeds the deadline". The code may
  instead give up after 1000 rounds. It settles for every task set if and only if the deadline is at
  most 1000 ticks (`AlwaysSettlesIff`).
* `to_ticks` promises that a deadline is never tightened by rounding. It is loosened instead. At every rate
  up to 18 446 744 092 Hz, a `Pass` on ticks holds in nanoseconds for every validated task set if and only if
  the ticks of a declared deadline have no room for two durations that do not fit before it
  (`DeclaredDeadlineIff`), and a period that stands in for a deadline ends with its tick (`ImpliedDeadlineIff`;
  `u64::MAX` apart). At rates that divide a second these read: at most one tick or whole ticks, and whole ticks
  (`SafeDeadlinesInTicks`). At those rates an interferer's period is safe for every such deadline if and only if
  it is whole ticks, at most one tick, or beyond 64 bits (`PeriodIff`). The validator warns about periods that
  are not tick aligned, and never about deadlines.
* A `Fail` prints that a task "provably misses its deadline". In nanoseconds that holds for every validated
  task set if and only if no interferer's execution time carries into one tick more than it adds
  (`ExecutionTimeIff`, at every rate up to 18 446 744 092 Hz). More than a second below the 64-bit limit these
  are the execution times that convert exactly (`NeverCarriesIff`); at rates that divide a second they are
  whole ticks (`NeverCarriesInTicks`).
* Shrinking an execution time can turn a `Pass` into an undecided verdict (`RelaxationCanExhaust`), but not with
  a deadline of at most 1000 ticks (`ShortPassStays`).
* The reported utilisation is accurate to one part per million per task (`UtilisationIsAccurate`), except for an
  execution time above 18 446 744 073 709 ticks, whose scaled value saturates (`ShareIsAccurateIff`).
* A WCET is held against a declared deadline only; without one, validation lets it exceed the period
  (`ValidatedIff` lists what validation does establish).
* `is_tick_aligned` decides exactness at precisely the rates that divide 10⁹ (`AlignedMeansExactIff`),
  and `to_ticks` is the exact quotient, capped, at precisely the rates up to 18 446 744 092 Hz
  (`ToTicksIsExactIff`).
* A stack of more than 2⁶³ bytes aborts the validator, which pads it to a power of two that does not
  exist (`StackAbortsIff`). `Validate` reports this outcome apart from a rejection.
* The reset stub overwrites the capture state so that no startup fault reaches Rust. A fault before that
  first store still finds the old word: Rust is entered over unestablished RAM exactly when memory holds
  an armed state word and unestablished RAM at reset (`EntersUnreadyIff`).
* The evidence magic is crash consistent exactly when the aggregate store overwrites the magic word before
  any word that differs between captures (`CrashConsistentIff`). An ascending store does; the source
  leaves the order to the compiler.

## Model

| member | source | states |
|---|---|---|
| ResponseTime.NextDemand | crates/malleus-analyzer/src/response_time.rs:211-217 | One round over the collected interferers equals the saturating demand function. |
| ResponseTime.SatDemandIsCapped | crates/malleus-analyzer/src/response_time.rs:211-217 | Saturating at every product and sum gives the unbounded demand, capped once at `u64::MAX`. |
| ResponseTime.Iterate | crates/malleus-analyzer/src/response_time.rs:207-252 | The loop with its two exits and its limit equals `Solve`, of which `VerdictIsRead` says what it reports. |
| ResponseTime.VerdictFor | crates/malleus-analyzer/src/response_time.rs:161-253 | All guards in order, the skip rule, the first unbounded interferer, then the iteration: the verdict that `VerdictIsRead` and `ReasonIsFirstGap` determine. |
| ResponseTime.Analyse | crates/malleus-analyzer/src/response_time.rs:134-159 | One verdict per task in order, the utilisation that `UtilisationAdds` and `UtilisationOfOne` determine, and a schedulable report if and only if every task passes. |
| ResponseTime.VerdictDecides | crates/malleus-analyzer/src/response_time.rs:219-240 | For any deadline: after a decision no window shorter than the reported response suffices, and a `Pass` below `u64::MAX` solves the unbounded recurrence. |
| ResponseTime.SaturationIsExact | crates/malleus-analyzer/src/response_time.rs:207-240 | With a deadline below `u64::MAX`, `Pass` reports the least solution over the integers and its exact slack; after `Fail` every window that suffices exceeds the deadline and is at least the reported response, so the early exit is exact; the only other outcome is non-convergence. |
| VerdictReading.RoundIsCapped | crates/malleus-analyzer/src/response_time.rs:207-217 | Saturation never compounds: after any number of rounds the loop holds the unbounded iterate, capped once. |
| VerdictReading.VerdictIsRead | crates/malleus-analyzer/src/response_time.rs:207-252 | `Pass` reports the iterate on which the recurrence settles within 1000 rounds; `Fail` reports the first iterate beyond the deadline, capped, and exactly by how much; `Unknown` means that all 1000 rounds rise within the deadline. |
| VerdictReading.ReadingIsUnique | crates/malleus-analyzer/src/response_time.rs:207-252 | No two verdicts read the same iterates, so the reading determines the verdict and its figures. |
| VerdictReading.ReasonIsFirstGap | crates/malleus-analyzer/src/response_time.rs:161-205 | Each reason for withholding a verdict, if and only if: the task's own gaps in order, then the first more urgent task that cannot be bounded, with a zero period or another gap. |
| UtilisationLaws.UtilisationAdds | crates/malleus-analyzer/src/response_time.rs:134-159 | Two task sets together use the sum of what each uses, capped once. |
| UtilisationLaws.UtilisationOfOne | crates/malleus-analyzer/src/response_time.rs:138-151 | One task: nothing without a period and a WCET, everything at a zero period, else its share rounded down. |
| UtilisationLaws.UndeclaredAddsNothing | crates/malleus-analyzer/src/response_time.rs:150 | A task without a period or a WCET leaves the figure unchanged, wherever it stands. |
| UtilisationLaws.ZeroPeriodFills | crates/malleus-analyzer/src/response_time.rs:140-145 | A declared zero period makes the figure `u64::MAX`, whatever comes before or after. |
| UtilisationLaws.UtilisationIsAccurate | crates/malleus-analyzer/src/response_time.rs:146-149 | With positive periods the figure before the cap is at most 10^6 * sum(C / T), and less than one ppm per declared task below it unless a scaled WCET exceeds 64 bits. |
| UtilisationLaws.ShareIsAccurateIff | crates/malleus-analyzer/src/response_time.rs:146-149 | The WCETs for which that holds beside every period are exactly those that fit 64 bits when scaled. |
| AnalysisLaws.NotConvergedNeedsRoom | crates/malleus-analyzer/src/response_time.rs:207-252 | Non-convergence implies base + 1000 <= deadline and at least 999 activations before the deadline beyond the first of each interferer. |
| AnalysisLaws.RoomBoundIsTight | crates/malleus-analyzer/src/response_time.rs:117-124 | For a saturating interferer the iteration is undecided if and only if response + rounds <= deadline. |
| AnalysisLaws.AlwaysSettlesIff | crates/malleus-analyzer/src/response_time.rs:13-16 | Every analysable task in every task set gets a decided verdict if and only if the deadline is at most 1000 ticks. |
| AnalysisLaws.PassIsSustainable | crates/malleus-analyzer/src/response_time.rs:184-242 | Removing, reordering and easing interferers, and easing the task itself, never turns a `Pass` into a `Fail`, and a response that still passes has not grown. |
| AnalysisLaws.ShortPassStays | crates/malleus-analyzer/src/response_time.rs:184-252 | With a deadline of at most 1000 ticks a relaxed task that passed still passes, with a response that has not grown. |
| Staircase.RelaxationCanExhaust | crates/malleus-analyzer/src/response_time.rs:117-124 | Beyond that the rounds can run out: a task set in which reducing one WCET from 2 to 1 turns a `Pass` into `Unknown`. |
| AnalysisLaws.VerdictByInterferers | crates/malleus-analyzer/src/response_time.rs:184-242 | The verdict is a function of the task's own figures and the multiset of interfering (period, WCET) pairs. |
| AnalysisLaws.VerdictIgnoresOrder | crates/malleus-analyzer/src/response_time.rs:184-205 | Permuting the task set does not change the verdict of a task whose interference can be bounded. |
| AnalysisLaws.SchedulableFitsTheCpu | crates/malleus-analyzer/src/response_time.rs:134-159 | With distinct names and priorities, `is_schedulable` implies a reported utilisation of at most 1 000 000 ppm. |
| AnalysisLaws.SharedLevelOverloads | crates/malleus-analyzer/src/response_time.rs:186-188 | Without distinct priorities it does not: two tasks that each need every tick both pass at 2 000 000 ppm. |
| LevelExactness.UtilisationFitsIff | crates/malleus-analyzer/src/response_time.rs:134-159 | For given distinct names and levels: every set of sound passes reports at most 1 000 000 ppm if and only if no two tasks share a level. |
| AnalysisLaws.SaturatedPass | crates/malleus-analyzer/src/response_time.rs:207-225 | In a set of two tasks, a deadline of `u64::MAX` is passed although no window that long suffices. |
| AnalysisLaws.DeadlineBelowMaxIsNeeded | crates/malleus-analyzer/src/response_time.rs:207-225 | The deadlines for which every `Pass` reports a sufficient window are exactly those below `u64::MAX`. |
| Scheduler.DemandBound | crates/malleus-analyzer/src/response_time.rs:213-216 | In every legal arrival pattern a window of n ticks releases at most ceil(n / T) jobs' worth of work. |
| ScheduleSoundness.EveryJobFinishes | crates/malleus-analyzer/src/response_time.rs:3-13 | Any window length that suffices for one job with all interference, and ends by the next release, bounds every job of the task in every run. |
| ScheduleSoundness.PassIsSound | crates/malleus-analyzer/src/response_time.rs:219-225 | If the verdict is `Pass`, then in every run of the policy every job is done within the reported response. |
| ScheduleExactness.FailIsNecessary | crates/malleus-analyzer/src/response_time.rs:219-240 | If the verdict is `Fail`, then in every run that releases the task and its interferers together, as often and as long as allowed, the first job is unfinished at its deadline and at every instant before the reported response. |
| ScheduleExactness.PassIsAttained | crates/malleus-analyzer/src/response_time.rs:219-225 | In each such run the first job needs the whole response that `Pass` reports. |
| ScheduleExactness.DispatchIsRun | crates/malleusrt/src/sched.rs:5-9 | The policy can be carried out: for any legal releases the dispatcher built here yields a run of any length. |
| ScheduleExactness.SynchronousRunExists | crates/malleusrt/src/sched.rs:5-9 | The critical-instant run exists for every analysable task. |
| ScheduleExactness.UncountedBreaksBound | crates/malleus-analyzer/src/response_time.rs:186-188 | One tick of work in a skipped rival already makes some run exceed the reported response. |
| ScheduleExactness.PassBoundsEveryRunIff | crates/malleus-analyzer/src/response_time.rs:186-188 | A `Pass` response bounds every run if and only if no skipped rival can use the CPU (a task that never executes aside). |
| ScheduleExactness.VerdictIsExact | crates/malleus-analyzer/src/response_time.rs:18-22 | The claimed exactness: a decided verdict is `Pass` if and only if every job meets the deadline in every run. |
| ReadyQueue.ReadySet.Insert | crates/malleusrt/src/sched.rs:122-124 | The set gains exactly this priority. |
| ReadyQueue.ReadySet.Remove | crates/malleusrt/src/sched.rs:132-134 | The set loses exactly this priority. |
| ReadyQueue.ReadySet.Contains | crates/malleusrt/src/sched.rs:139-141 | The masked word is non-zero if and only if the priority is in the set. |
| ReadyQueue.ReadySet.Highest | crates/malleusrt/src/sched.rs:159-167 | The maximum of the set, a valid priority; none exactly when the set is empty. |
| ReadyQueue.HighestIsDispatched | crates/malleusrt/src/sched.rs:5-9 | In every run the tick goes to a task of the highest ready priority, and the CPU idles exactly when the set is empty. |
| Activation.Period.StartingAt | crates/malleusrt/src/time.rs:69-75 | First activation one interval after the start, saturated. |
| Activation.Period.Advance | crates/malleusrt/src/time.rs:100-136 | Equals one run of the naive catch-up loop over unbounded integers, capped afterwards in time and in the counter; a zero interval counts one miss and stays. |
| Activation.CatchUpCount | crates/malleusrt/src/time.rs:104-120 | The naive loop skips exactly ceil(behind / interval) instants. |
| Activation.StepIsLeast | crates/malleusrt/src/time.rs:104-111 | The new target is the least later grid instant not before `now`. |
| Activation.SaturateCommutes | crates/malleusrt/src/time.rs:121-133 | Saturating before a step or only after it is the same. |
| Activation.RunRefinesNaive | crates/malleusrt/src/time.rs:100-136 | After any sequence of calls the words hold the unbounded schedule, capped once. |
| Activation.EveryInstantAccounted | crates/malleusrt/src/time.rs:46-57 | The k-th event since the start is at grid instant k, and each instant up to the next activation is exactly one target or one counted miss. |
| Activation.NoDrift | crates/malleusrt/src/time.rs:69-136 | The next activation is start + (1 + calls + missed) * interval, capped. |
| Activation.NeverBehind | crates/malleusrt/src/time.rs:100-136 | With a positive interval the returned target is never before `now`, even saturated. |
| Ticks.ToTicksIsExact | crates/malleus-manifest/src/units.rs:61-71 | The split conversion is ceil(ns * hz / 10^9), capped once, and uncapped up to 1 GHz. |
| Ticks.ToTicksIsExactIff | crates/malleus-manifest/src/units.rs:61-71 | It is that for every duration if and only if hz <= 18 446 744 092. |
| Ticks.ToTicksAtAnyRate | crates/malleus-manifest/src/units.rs:61-71 | At every rate: whole seconds count exactly, the rest rounded up but at most 18 446 744 074 ticks, and the sum is capped once. |
| Ticks.ToTicksMono | crates/malleus-manifest/src/units.rs:61-71 | Monotone in the duration at every rate, saturated or not. |
| Ticks.ToTicksPositive | crates/malleus-manifest/src/units.rs:57-71 | A positive duration never rounds to zero ticks. |
| Ticks.MicrosAgree | crates/malleus-arch/src/time.rs:86-89 | The board's conversion from microseconds agrees wherever its products fit. |
| Ticks.MicrosAtAnyRate | crates/malleus-arch/src/time.rs:86-89 | Where its product does not fit, it stops at 18 446 744 073 710 ticks. |
| Ticks.AlignedMeansExact | crates/malleus-manifest/src/units.rs:79-85 | At a rate that divides a second, alignment holds if and only if the conversion is exact. |
| Ticks.AlignedMeansExactIff | crates/malleus-manifest/src/units.rs:79-85 | It decides exactness for every duration at precisely those rates. |
| TickRounding.TicksCover | crates/malleus-manifest/src/units.rs:57-71 | Converted back, a duration is covered by its ticks with less than one tick to spare, unless they saturate. |
| TickRounding.AlignedIsExact | crates/malleus-manifest/src/units.rs:79-85 | At a rate that divides a second, alignment picks out the durations that convert exactly, which are the last nanoseconds of their ticks. |
| TickRounding.TickPassSolvesNanos | tools/cargo-malleus/src/analyze.rs:17-33 | At every rate up to 18 446 744 092 Hz: if the task's deadline and its interferers' periods are rounded safely, a `Pass` on ticks implies that the nanosecond recurrence has a solution within the nanosecond deadline. |
| TickRounding.TickPassIsSoundInNanos | tools/cargo-malleus/src/analyze.rs:17-33 | Then in every run stepped in nanoseconds every job is done by the deadline and by the tick response. |
| TickRounding.TickFailHolds | crates/malleus-analyzer/src/response_time.rs:219-240 | If no interferer's execution time carries, a `Fail` on ticks implies that no window by the nanosecond deadline suffices, whatever the periods and deadlines. |
| TickRounding.TickFailMissesInNanos | tools/cargo-malleus/src/analyze.rs:85-91 | Then some run stepped in nanoseconds misses the deadline. |
| TickRounding.MisalignedDeadlineUnsound | crates/malleus-manifest/src/units.rs:57-61 | A concrete set at 1 MHz whose 1.5 us deadline is passed on ticks has no solution in time. |
| TickRounding.MisalignedPeriodUnsound | crates/malleus-manifest/src/units.rs:73-85 | A concrete set at 1 MHz with a 1.5 us interferer period likewise. |
| RoundingExactness.LibraryDeadlineIff | crates/malleus-manifest/src/units.rs:57-71 | At every usable rate, over all task sets with safe periods: every `Pass` for this deadline holds in nanoseconds if and only if it is the last nanosecond of its tick (or `u64::MAX` with no room for two). |
| RoundingExactness.DeclaredDeadlineIff | crates/malleus-manifest/src/units.rs:57-71 | At every usable rate, over all validated task sets with safe periods: every `Pass` for this declared deadline holds in nanoseconds if and only if its ticks have no room for two durations that do not fit before it. |
| RoundingExactness.ImpliedDeadlineIff | crates/malleus-analyzer/src/response_time.rs:168-173 | At every usable rate, over all validated task sets, for a period that stands in for the deadline: if and only if it is the last nanosecond of its tick (or `u64::MAX` with no room for two). |
| RoundingExactness.SafeDeadlinesInTicks | crates/malleus-manifest/src/units.rs:79-85 | At a rate that divides a second these conditions are: tick aligned or at most one tick, and tick aligned. |
| RoundingExactness.PeriodIff | crates/malleus-manifest/src/validate.rs:317-332 | At a rate that divides a second, over all validated task sets and all safe deadlines: an interferer's period is rounded safely if and only if it is tick aligned, at most one tick, or its last tick ends beyond 64 bits. |
| RoundingExactness.ExecutionTimeIff | tools/cargo-malleus/src/analyze.rs:85-91 | At every usable rate, over all validated task sets, for an interferer's execution time: every `Fail` holds in nanoseconds if and only if it never carries into one tick more than it adds. |
| RoundingExactness.NeverCarriesIff | crates/malleus-manifest/src/units.rs:61-71 | More than a second below the 64-bit limit, in nanoseconds and unsaturated on ticks, an execution time never carries if and only if it converts exactly. |
| RoundingExactness.NeverCarriesInTicks | crates/malleus-manifest/src/units.rs:79-85 | At a rate that divides a second: if and only if it is tick aligned or `u64::MAX`. |
| Units.ParseSpelling | crates/malleus-manifest/src/units.rs:203-216 | What the parser makes of any text of the right shape, overflow of the digits and of the product apart. |
| Units.ParseOnlySpellings | crates/malleus-manifest/src/units.rs:88-111 | Every accepted text has that shape. |
| Units.ParseDigitsChecksOnce | crates/malleus-manifest/src/units.rs:212-214 | Reading digits with a check at every step gives the denoted integer if and only if it fits 64 bits. |
| Units.WhitespaceIsListed | crates/malleus-manifest/src/units.rs:204 | What is trimmed: the 25 code points of the Unicode White_Space property. |
| UnitLaws.DurationUnits | crates/malleus-manifest/src/units.rs:91-111 | For every number and any blanks around it: `ns` reads as the number, `us` and `µs` as a thousand, `ms` a million, `s` a thousand million times it, and as an overflow if that exceeds 64 bits. |
| UnitLaws.SizeUnits | crates/malleus-manifest/src/units.rs:163-184 | The same for `B`, `KiB` (1024) and `MiB` (1024 * 1024). |
| UnitLaws.OtherUnitsAreUnknown | crates/malleus-manifest/src/units.rs:98-104 | Any other unit is refused by name, decimal sizes included. |
| UnitLaws.NumberAndUnitAreNeeded | crates/malleus-manifest/src/units.rs:203-211 | A text without a unit, and one that does not start with a number, are refused as such. |
| Units.ParseIsGrammar | crates/malleus-manifest/src/units.rs:88-111 | `Ok(n)` if and only if the text is blanks, digits, blanks, a known unit, blanks, and n is their product within 64 bits; `DurationUnits` and `SizeUnits` give the units' values. |
| Units.DisplayUnitIsLargest | crates/malleus-manifest/src/units.rs:113-126 | The printed unit divides the value and no larger one does; `PrintedDurations` and `PrintedSizes` name it. |
| Units.DecimalIsNumeral | crates/malleus-manifest/src/units.rs:113-126 | The printed number is the numeral of the value without leading zeros. |
| UnitLaws.PrintedDurations | crates/malleus-manifest/src/units.rs:113-126 | Which of `ns`, `us`, `ms` and `s` is printed, for every multiple of each. |
| UnitLaws.PrintedSizes | crates/malleus-manifest/src/units.rs:187-199 | Which of `B`, `KiB` and `MiB` is printed, for every multiple of each. |
| Units.PrintParse | crates/malleus-manifest/src/units.rs:113-126 | Print then parse is the identity for every `u64` duration and size. |
| Units.NormalForm | crates/malleus-manifest/src/units.rs:163-200 | Parse then print gives one normal form per value, stable under repetition. |
| Manifest.ToPowerOfTwo | crates/malleus-manifest/src/units.rs:155-160 | Overflows exactly above 2^63. |
| Manifest.StackAbortsIff | crates/malleus-manifest/src/validate.rs:364-368 | A stack written as n bytes aborts the tool if and only if n exceeds 2^63. |
| Manifest.PaddingIsLeast | crates/malleus-manifest/src/units.rs:149-160 | Otherwise the least power of two that is not below the size. |
| WellFormedness.NoErrorsMeansWellFormed | crates/malleus-manifest/src/validate.rs:126-135 | The specified findings hold no error and no stack aborts if and only if the manifest is well formed, for every order of the priority levels. |
| WellFormedness.AbortsIff | crates/malleus-manifest/src/validate.rs:364-368 | Validation aborts if and only if some stack reads as more than 2^63 bytes. |
| ReportContents.ReportIsDeserved | crates/malleus-manifest/src/validate.rs:137-552 | The whole report, finding by finding: a severity, code and subject is reported if and only if the manifest deserves it, with all 26 conditions spelled out on the manifest. |
| ReportOrder.ReportIsStaged | crates/malleus-manifest/src/validate.rs:126-135 | The findings come check by check, in the order of the checks. |
| ReportOrder.TimingInOrder | crates/malleus-manifest/src/validate.rs:250-333 | Those about one task's timing come in the order in which its texts and values are looked at. |
| ReportOrder.ChannelInOrder | crates/malleus-manifest/src/validate.rs:390-472 | Those about one channel come in the order of their codes. |
| ReportContents.InvalidPolicyReportedIff | crates/malleus-manifest/src/validate.rs:438-453 | M0017 is reported if and only if some channel's policy is none of the four. |
| ReportContents.InversionReportedIff | crates/malleus-manifest/src/validate.rs:455-471 | M0018 is reported if and only if a blocking channel leads from the first task of one name to a less urgent first task of another. |
| ReportContents.UnclaimedReportedIff | crates/malleus-manifest/src/validate.rs:527-551 | M0022 is reported if and only if neither endpoint of some channel holds its capability. |
| ReportContents.PaddedIff | crates/malleus-manifest/src/validate.rs:364-381 | Padding changes a stack size if and only if it is no power of two. |
| ReportContents.SharingIsListed | crates/malleus-manifest/src/validate.rs:193-217 | The names in M0005 are those of exactly the tasks with a deadline on the level, in declaration order. |
| ReportContents.JoinConcat | crates/malleus-manifest/src/validate.rs:207 | They are joined by a comma and a blank. |
| UnitLaws.RateUnits | crates/malleus-manifest/src/validate.rs:577-594 | Rates: `Hz` reads as the number, `kHz` as a thousand and `MHz` as a million times it, no other unit as a rate, and an overflow as none. |
| Validation.Report.PushIf | crates/malleus-manifest/src/validate.rs:86-107 | The report stays ok if and only if it was and no error is pushed. |
| Validation.CheckTaskNames | crates/malleus-manifest/src/validate.rs:137-160 | The loop over the `seen` set pushes the specified name findings. |
| Validation.GroupByPriority | crates/malleus-manifest/src/validate.rs:193-201 | The grouping map holds, per level, the names of its tasks with deadlines in order. |
| Validation.CheckPriorities | crates/malleus-manifest/src/validate.rs:162-218 | Range findings, then one finding per crowded level, in some order of the levels. |
| Validation.ParseDuration | crates/malleus-manifest/src/validate.rs:555-575 | The value, or a finding and no value. |
| Validation.CheckTaskTiming | crates/malleus-manifest/src/validate.rs:250-333 | The report stays free of errors if and only if it was and the task is well timed; findings come in the order in which they are pushed. |
| Validation.CheckTiming | crates/malleus-manifest/src/validate.rs:220-334 | The findings about the rate and then about every task. |
| Validation.CheckTaskStack | crates/malleus-manifest/src/validate.rs:337-382 | The findings about one stack, or the abort. |
| Validation.CheckStacks | crates/malleus-manifest/src/validate.rs:336-384 | The same for all, aborting exactly if some stack exceeds 2^63 bytes. |
| Validation.CheckChannel | crates/malleus-manifest/src/validate.rs:390-472 | The report stays free of errors if and only if it was, the name is new and the channel is well connected. |
| Validation.CheckChannels | crates/malleus-manifest/src/validate.rs:386-473 | The findings about all channels. |
| Validation.ChannelMap | crates/malleus-manifest/src/validate.rs:478-482 | The map yields the endpoints of the last channel declared with a name. |
| Validation.CheckTaskCapabilities | crates/malleus-manifest/src/validate.rs:484-525 | The findings about one task's capabilities. |
| Validation.CheckCapabilities | crates/malleus-manifest/src/validate.rs:475-552 | The findings about all capabilities, then about unclaimed channels. |
| Validation.Validate | crates/malleus-manifest/src/validate.rs:126-135 | Completes without an error if and only if the manifest is well formed; aborts if and only if padding a stack overflows; otherwise reports exactly the specified findings, each of them if and only if the manifest deserves it. |
| Pipeline.CliTickHz | tools/cargo-malleus/src/analyze.rs:112-125 | The command line reads a rate if and only if the validator reads the same one, so its unchecked product cannot overflow on a validated manifest. |
| Pipeline.CliRateUnits | tools/cargo-malleus/src/analyze.rs:112-125 | What it reads, unit by unit, and that it aborts if and only if a number that fits has a multiple that does not. |
| Pipeline.TimingOf | tools/cargo-malleus/src/analyze.rs:18-30 | One task's timing in ticks, or the error of its first text that cannot be read. |
| Pipeline.Timings | tools/cargo-malleus/src/analyze.rs:16-31 | All tasks converted in order, if and only if every duration can be read; otherwise the error of the first task that has one. |
| Pipeline.Run | tools/cargo-malleus/src/analyze.rs:10-33 | Reports if and only if the manifest is well formed, the report is the analysis of the converted tasks, and no reading fails after validation. |
| Pipeline.ValidationDischarges | crates/malleus-manifest/src/validate.rs:250-303 | For a well-formed manifest: positive rate and tick periods, tick deadline <= tick period, tick WCET <= tick deadline, priorities 1 to 31, distinct names. |
| Pipeline.ZeroPeriodIsNeverReported | crates/malleus-analyzer/src/response_time.rs:190-196 | The analyser's zero-period guard never fires on a validated manifest. |
| Pipeline.ReportedPassHolds | tools/cargo-malleus/src/analyze.rs:16-33 | A reported `Pass` of a task that is rounded safely means that it meets its declared deadline in every nanosecond run. |
| Pipeline.ReportedFailHolds | tools/cargo-malleus/src/analyze.rs:85-91 | A reported `Fail` of a task whose interferers' execution times never carry means that some nanosecond run misses its declared deadline. |
| Pipeline.ReportedPassIsTrue | tools/cargo-malleus/src/analyze.rs:33-91 | With distinct levels and safe rounding, a passing report means that every task meets every declared deadline in every nanosecond run, and its utilisation is at most the whole CPU. |
| LevelExactness.DeadlinesMetIff | crates/malleus-analyzer/src/response_time.rs:102-106 | For given names and levels that validate, at every usable rate: passing on ticks with safe rounding means that every run in nanoseconds meets every deadline, whatever the timing, if and only if no two tasks share a level. |
| LevelExactness.PassingReportIsTrueIff | tools/cargo-malleus/src/analyze.rs:85-91 | The same for the tool: every manifest with these names and levels that validates, rounds safely and is reported `PASS` has a true report if and only if no two tasks share a level. |
| ValidatedTimings.ValidatedIff | crates/malleus-manifest/src/validate.rs:126-552 | The timing sets of well-formed manifests, at any positive rate, are exactly those with distinct names, valid priorities, positive periods, D <= T, and C <= D where a deadline is declared. |
| ValidatedTimings.ManifestReports | tools/cargo-malleus/src/analyze.rs:10-33 | For each such set a manifest is built, as text, whose report is the verdict on that set. |
| Warnings.MisalignedPeriodWarnedIff | crates/malleus-manifest/src/validate.rs:317-332 | The report holds M0009 if and only if some usable period is misaligned. |
| Warnings.SharedLevelWarnedIff | crates/malleus-manifest/src/validate.rs:190-217 | The report holds M0005 if and only if two tasks of one priority both declare a deadline. |
| Warnings.UnwarnedIsRoundable | crates/malleus-manifest/src/validate.rs:317-332 | Without M0009, at a rate that divides a second, only the task's own declared deadline is left to check for safe rounding. |
| Warnings.SilentFalsePass | crates/malleus-manifest/src/validate.rs:190-217 | For every positive whole-tick period, level and dividing rate: a manifest that draws no finding, is reported to pass, and has a run that misses its deadline. |
| Example.RunsAndMeetsItsDeadlines | tools/cargo-malleus/src/analyze.rs:10-92 | The hypotheses can be met: a two-task manifest validates and passes with no slack, has runs of every length, and meets every deadline to the nanosecond in all of them. |
| Example.ReportsPass | tools/cargo-malleus/src/analyze.rs:33-91 | Its report is both verdicts, exactly 200 000 ppm, and schedulable. |
| Startup.LinkedIsMapped | boards/nucleo-f767zi/linker/link.x:53-80 | Aligned, ordered sections occupy disjoint ranges of whole words, and the image lies in Flash. |
| Startup.CopyData | crates/malleus-arch-cortex-m/src/startup.rs:112-121 | The copy loop ends and changes exactly the words of `.data`, each to its image word. |
| Startup.ClearBss | crates/malleus-arch-cortex-m/src/startup.rs:123-131 | The clearing loop ends and changes exactly the words of `.bss`, to zero. |
| Startup.Reset | crates/malleus-arch-cortex-m/src/startup.rs:107-131 | For any section sizes and prior memory: `.data` equals its image, `.bss` is zero, and every other word but the capture state is what it was. |
| Startup.Start | crates/malleus-arch-cortex-m/src/startup.rs:51-71 | From arbitrary memory the evidence word tells which probe is wrong, in both directions, capture is armed, and no other word changes. |
| Startup.Boot | crates/malleus-arch-cortex-m/src/startup.rs:107-135 | From any memory a boot records success, arms capture, and keeps the rest of `.uninit`. |
| Startup.ResetForgets | crates/malleus-arch-cortex-m/src/startup.rs:107-131 | `.data` and `.bss` do not depend on prior memory, and a second reset changes nothing. |
| FaultCapture.RecordsAreSnapshots | crates/malleus-arch-cortex-m/src/fault.rs:228-278 | The words a capture may write are exactly those that the routine builds from some fault entry. |
| FaultCapture.SnapshotWords | crates/malleus-arch-cortex-m/src/fault.rs:97-118 | Every fault entry, word by word: which register stands at which offset, the frame or zeros, each address only under its valid bit. |
| FaultCapture.SnapshotFlags | crates/malleus-arch-cortex-m/src/fault.rs:241-258 | The flags, bit by bit: frame present, extended, process stack, each address. |
| FaultCapture.StackingFailedIsMasked | crates/malleus-arch-cortex-m/src/fault.rs:141-176 | The frame is withheld if and only if the status word meets the mask 0x3838. |
| FaultCapture.EveryRunIsSafe | crates/malleus-arch-cortex-m/src/fault.rs:337-361 | The invariant of the protocol, over every sequence of steps, faults and resets from any memory. |
| FaultCapture.CapturesOnceAndOnlyReady | crates/malleus-arch-cortex-m/src/fault.rs:337-361 | Rust is entered at most once per boot, and after the stub's first store only over established `.data` and `.bss`. |
| FaultCapture.CompleteMeansWhole | crates/malleus-arch-cortex-m/src/fault.rs:280-292 | The completion word means that all 19 evidence words belong to the boot's one capture, in whatever order the aggregate is stored. |
| FaultCapture.CompleteMeansWholeAcrossBoots | crates/malleus-arch-cortex-m/src/fault.rs:280-292 | The same over any number of boots, for the capture of this boot or an earlier one. |
| CrashConsistency.BootRuns | crates/malleus-arch-cortex-m/src/startup.rs:107-135 | Left alone, the step model reaches the idle loop with RAM as `Startup` computes it. |
| CrashConsistency.CaptureRuns | crates/malleus-arch-cortex-m/src/fault.rs:228-298 | Left alone, a fault over an armed word ends with its whole snapshot published and the completion word set. |
| CrashConsistency.CaptureShowsRegisters | crates/malleus-arch-cortex-m/src/fault.rs:228-298 | The same, register by register: every fault entry over an armed word ends with its registers at their offsets in RAM, the magic word before them and the completion word set. |
| CrashConsistency.EntersUnreadyIff | crates/malleus-arch-cortex-m/src/startup.rs:33-40 | A boot can enter Rust over unestablished RAM if and only if it starts from an armed state word and unestablished RAM. |
| CrashConsistency.TornRun | crates/malleus-arch-cortex-m/src/fault.rs:92-95 | Any other order has a run that shows the magic word over a mixture: an undefined instruction captured in one boot, an access fault half captured in the next. |
| CrashConsistency.CrashConsistentIff | crates/malleus-arch-cortex-m/src/fault.rs:92-95 | The magic word always comes with one whole snapshot, over any number of boots, if and only if the aggregate store takes it down before any word that can differ. |

## Left out

- ScheduleSoundness.PassIsSound: assumes a deadline within the period, zero blocking (what the command line passes) and a deadline below `u64::MAX`; that no skipped rival uses the CPU is the exact condition of `PassBoundsEveryRunIff`. Blocking is kept general in the recurrence theorems, and no mutex protocol exists in the sources to relate it to.
- ScheduleExactness.VerdictIsExact: is about decided verdicts; `Unknown` claims nothing.
- TickRounding.TickPassIsSoundInNanos: rates above 18 446 744 092 Hz, where the conversion itself loses ticks (`ToTicksIsExactIff`).
- RoundingExactness.PeriodIff: is about rates that divide a second; at others, whether a period is safe also depends on which execution times lose how much to rounding, and the condition is proved sufficient only.
- RoundingExactness.LibraryDeadlineIff: deadlines that convert to `u64::MAX` ticks, which saturation spoils already.
- RoundingExactness.NeverCarriesIff: within a second of the 64-bit limit `ExecutionTimeIff` holds with its own condition, which need not be exactness there.
- Validation.Validate: the text of findings, and the order of the crowded priority levels, which a hash map leaves open; the order appears as a ghost result.
- Manifest.ToPowerOfTwo: the overflow abort is a result value, not a crash.
- FaultCapture.CapturesOnceAndOnlyReady: steps are stores and the loads that guard them, since no other instruction can be observed; nesting is unbounded, more than the architecture allows; register contents are any that a fault entry can find.
- FaultCapture.EveryRunIsSafe: the capture code is a state machine on values, not a method over an array, because faults and resets interleave with its stores.
- CrashConsistency.CrashConsistentIff: a word is stored whole; the memory between power loss and power-on is arbitrary, so a power cycle starts a new run.
- How the SCB registers and the stacked frame come by their contents, and the planted bootstrap fault.
- TOML parsing, file access, printing and exit codes.
- The manifest's `name`, `board` and `isolated` fields, which neither validation nor analysis reads.
- Readings by `Verdict` and `Analysis` beyond `is_schedulable`, priority-to-hardware mapping, and memory totals: finite or one-line facts.
- Code generation, the runtime's channels and mutexes, trace encoding and supervision, of which the sources hold only designs.
