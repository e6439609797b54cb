# A verified model of the sound, frame buffer and serial drivers

The repository collects Linux driver sources. This project models the parts of them that compute something hard to get
right by inspection, and proves what they are for. The main part is the ALSA PCM core; three smaller drivers follow.
`dafny verify dfyconfig.toml` checks everything.

**The hardware parameter solver** (`Intervals`, `IntervalArithmetic`, `HwRules`, `HwTheory`, `HwRefine`, `HwStandard`,
`RationalRates`). A box of format masks and rate, size and time intervals is narrowed by rules until a pass changes
nothing; stamps decide which rules run again. Intervals denote sets of rationals, boxes denote sets of configurations.
Narrowing is intersection, exactly up to one condition; rule outputs enclose all true products and quotients, and no
interval that does has tighter ends; the propagator loses no solution, fails only when there is none, ends, and leaves a
box that no enabled rule can narrow, as long as no step of its one run from that request wraps. On boxes with positive
lower ends and no saturating product that box is the greatest one closed under the rules, so the order of the rules does
not matter. The twenty standard rules together mean seven equations, and come to rest exactly where every variable has
its ends where the others put them.

**The PCM ring** (`PcmGeometry`, `PcmPointer`, `PcmRuntime`). Pointers count frames modulo `boundary`, slots count
modulo `buffer_size`. Beside the wrapped fields the model keeps unbounded counts, by which the modelled code decides
nothing, and the whole stream of frames. Pointer updates follow the device across both wraps, also past the application;
what a period interrupt does to the pointer is classified on all inputs. `write1` and `read1` make the ring a FIFO queue
while the device moves, polls and period interrupts come, and other threads start or stop the stream; only the first
start of a stream with silence filling can spoil a write, and it is said exactly when. A transfer that comes to less than
was asked has a reason in the stream, or in what the outside is allowed to do to it. In full-silence mode everything
outside the pending window is silent, and an underrunning device plays silence. Rewinding and forwarding undo each other.

**The PCM state machine** (`PcmStates`, `PcmStream`, `GroupAction`). Each operation is a pre/do/undo/post quadruple. The
callbacks refine one step function, and the DMA is active exactly when the state says so, in all runs that contain none
of two exactly characterised steps. A group action is a transaction: which callbacks run, in which order, under which
locks.

**The rest.** `TimerResolution`: a period in nanoseconds through gcd reduction and halving, exact or within a stated
bound. `LcdPalette`: a write-behind palette buffer before lossy registers. `UartRing`: the transmit ring between writers
and interrupt. `SoundUnits`: the sorted linked chain of OSS minors with its retry loop.

`Words` and `Numbers` hold word-sized integers, error numbers and small facts of arithmetic.

## What turned out not to hold

- Narrowing is not intersection when an integer result has an open lower end at `UINT_MAX` or an open upper end at 0:
  the end wraps (`Intervals.RefineIntersectsIff`, `HwTheory.WrapWidens`).
- Products and quotients miss the value 0 if and only if one operand has a zero and an open end of the other is inherited
  (`IntervalArithmetic.MulDivKEnclosesIff`, `IntervalArithmetic.MulKDivEnclosesIff`; concrete operands in
  `IntervalArithmetic.MulMissesZero` and `IntervalArithmetic.DivMissesZero`).
- `snd_interval_ratnum` loses achievable rates if and only if the interval is not an integer one, has a lower end of 0
  and an upper end above 0, and some clock can be divided down to less than 1 (`RationalRates.AllRatesKeptIff`).
- The divider picked for the fastest rate is beyond the clock's range if and only if none of the clock's dividers brings it
  down to the upper end (`RationalRates.HighDenIsReal`, `RationalRates.HighDenOvershoots`); the divider picked for the
  slowest one may be the largest number of the range without being on its step (`RationalRates.LowDenIsReal`).
- `snd_pcm_update_hw_ptr_interrupt` follows the device if and only if the interrupt is not early and not a whole buffer
  late at a block change, in the eyes of code that can take the period mark for one on another lap
  (`PcmPointer.FollowInterrupt`). Else it is ignored, or on a buffer of one period jumps a buffer ahead, or falls back by
  one. An interrupt in time is ignored exactly when the mark is taken to be on another lap
  (`PcmPointer.ElapsedFollowsIff`); one served within a period of the mark never meets this case, and one served between
  one and one and a half periods late does not re-establish that (`PcmPointer.StaysTimelyIff`). Concrete inputs:
  `PcmPointer.ElapsedButSkipped`, `PcmPointer.SinglePeriodJumps`, `PcmPointer.LateFallsBack`.
- `snd_pcm_lib_write1` commits silence for frames that another thread's start of a silenced stream fills over while they
  are being transferred (`PcmRuntime.Runtime.Write1`, `PcmRuntime.StartDuringWrite`).
- Full silence is lost, apart from rewinding and writing behind the hardware, if and only if a copy breaks down and leaves
  a frame that is not silent ahead of the hardware (`PcmRuntime.Runtime.Abandon`, `PcmRuntime.FaultDuringWrite`).
- The signed sum of a forward overflows when the hardware has passed the application so far that pointer plus distance
  exceed a signed long (`PcmGeometry.SignedSumFits`, `PcmGeometry.SumOverflows`).
- Resuming a stream that is running leaves state and DMA in disagreement if the saved state is not a running one or the
  driver refuses, and so does draining a prepared stream whose start trigger is refused (`PcmStream.StepAgreesIff`,
  `PcmStream.StaleResumeBreaks`, `PcmStream.RefusedDrainBreaks`).

## Model

| member | source | states |
|---|---|---|
| `Intervals.RefineIntersectsIff` | 15-Asoc(ALSA System on Chip)/sound/core/pcm_lib.c:545-586 | narrowing yields exactly the intersection of the two rational sets, and fails exactly when it is empty, if and only if the merged interval does not step across an end of the 32-bit word |
| `Intervals.RefineKeeps` | 15-Asoc(ALSA System on Chip)/sound/core/pcm_lib.c:545-586 | a rational in both intervals rules out the wrap, always survives and always prevents `-EINVAL` |
| `Intervals.RefineGreatest` | 15-Asoc(ALSA System on Chip)/sound/core/pcm_lib.c:545-586 | every proper interval below both operands is below the result, so narrowing is a greatest lower bound |
| `Intervals.RefineBelow` | 15-Asoc(ALSA System on Chip)/sound/core/pcm_lib.c:545-586 | unless the merge wraps, the result is a proper interval below both operands |
| `Intervals.RefineUnchanged` | 15-Asoc(ALSA System on Chip)/sound/core/pcm_lib.c:545-586 | a call changes nothing and returns 0 exactly when the interval already lies within the other |
| `Intervals.RefineDrops` | 15-Asoc(ALSA System on Chip)/sound/core/pcm_lib.c:545-586 | a positive return strictly lowers 4·(max − min) plus the number of closed ends plus "not integer" |
| `Intervals.RefineCodes` | 15-Asoc(ALSA System on Chip)/sound/core/pcm_lib.c:545-586 | the return value is `-EINVAL`, 0 or 1, and it is negative exactly when the interval is marked empty |
| `Intervals.RefineMoves` | 15-Asoc(ALSA System on Chip)/sound/core/pcm_lib.c:545-586 | a positive return means that the interval is another one than before |
| `Intervals.RefineTest` | 15-Asoc(ALSA System on Chip)/sound/core/pcm_lib.c:545-586 | on plain integers, membership in the result is membership in both operands |
| `Intervals.Refine` | 15-Asoc(ALSA System on Chip)/sound/core/pcm_lib.c:545-586 | the in-place code changes one interval of the array, and to that meet, normalised, with the code's three kinds of return value |
| `Intervals.MergeEnds` | 15-Asoc(ALSA System on Chip)/sound/core/pcm_lib.c:550-569 | the merge of ends reports a change exactly when the interval was not within the other one |
| `IntervalArithmetic.MulDivKEncloses` | 15-Asoc(ALSA System on Chip)/sound/core/pcm_lib.c:675-693 | every x·y/k below `UINT_MAX` of positive operand points lies in the computed interval, including the remainder-driven open upper end |
| `IntervalArithmetic.MulKDivEncloses` | 15-Asoc(ALSA System on Chip)/sound/core/pcm_lib.c:706-729 | every x·k/y strictly between 0 and `UINT_MAX` of positive operand points lies in the computed interval |
| `IntervalArithmetic.MulEncloses` | 15-Asoc(ALSA System on Chip)/sound/core/pcm_lib.c:616-628 | every product of positive operand points below `UINT_MAX` lies in the product interval, integer flag included |
| `IntervalArithmetic.DivEncloses` | 15-Asoc(ALSA System on Chip)/sound/core/pcm_lib.c:640-662 | every quotient of positive operand points strictly between 0 and `UINT_MAX` lies in the quotient interval |
| `IntervalArithmetic.MulDivKEnclosesIff` | 15-Asoc(ALSA System on Chip)/sound/core/pcm_lib.c:675-693 | with zeros included, a·b/k encloses all its values below `UINT_MAX` if and only if no operand has a zero that an open end of the other one loses |
| `IntervalArithmetic.MulEnclosesIff` | 15-Asoc(ALSA System on Chip)/sound/core/pcm_lib.c:616-628 | the same for plain products |
| `IntervalArithmetic.MulKDivEnclosesIff` | 15-Asoc(ALSA System on Chip)/sound/core/pcm_lib.c:706-729 | a·k/b encloses all its values below `UINT_MAX`, zero included, if and only if the dividend has no zero that an open end of the divisor loses |
| `IntervalArithmetic.DivEnclosesIff` | 15-Asoc(ALSA System on Chip)/sound/core/pcm_lib.c:640-662 | the same for plain quotients |
| `IntervalArithmetic.MulMissesZero` | 15-Asoc(ALSA System on Chip)/sound/core/pcm_lib.c:616-628 | concrete operands of the losing kind: the product 0 is excluded by an inherited open end |
| `IntervalArithmetic.DivMissesZero` | 15-Asoc(ALSA System on Chip)/sound/core/pcm_lib.c:640-662 | and concrete operands whose quotient 0 is |
| `IntervalArithmetic.MulIsMulDivK` | 15-Asoc(ALSA System on Chip)/sound/core/pcm_lib.c:508-532 | saturating at a 32-bit division and saturating a 64-bit product agree, so the product is the case k = 1 |
| `IntervalArithmetic.DivIsMulKDiv` | 15-Asoc(ALSA System on Chip)/sound/core/pcm_lib.c:478-532 | the quotient of two intervals is the case k = 1 of a·k/b |
| `IntervalArithmetic.MulKDivTight` | 15-Asoc(ALSA System on Chip)/sound/core/pcm_lib.c:706-729 | both ends of a·k/b are those of the true quotients, rounded outwards to the next integers, and open exactly if rounded or inherited; only a divisor that reaches down to 0 leaves no upper end |
| `IntervalArithmetic.MulDivKTight` | 15-Asoc(ALSA System on Chip)/sound/core/pcm_lib.c:675-693 | both ends of a·b/k are those of the true values, rounded outwards, and open exactly if rounded or inherited |
| `IntervalArithmetic.MulKDivTightest` | 15-Asoc(ALSA System on Chip)/sound/core/pcm_lib.c:706-729 | no interval that holds all the values x·k/y has an end further in than the one computed, on divisors above 0 |
| `IntervalArithmetic.MulDivKTightest` | 15-Asoc(ALSA System on Chip)/sound/core/pcm_lib.c:675-693 | no interval that holds all the values x·y/k has an end further in than the one computed |
| `IntervalArithmetic.WithinQuotientIff` | 15-Asoc(ALSA System on Chip)/sound/core/pcm_lib.c:706-729 | an interval lies within the computed a·k/b exactly when, in products of integers, its ends are no further out than the true quotients |
| `IntervalArithmetic.WithinProductIff` | 15-Asoc(ALSA System on Chip)/sound/core/pcm_lib.c:675-693 | the same for a·b/k |
| `IntervalArithmetic.MulDivKMonotone` | 15-Asoc(ALSA System on Chip)/sound/core/pcm_lib.c:675-693 | narrower operands give a narrower a·b/k, open ends included, on positive operands without saturation |
| `IntervalArithmetic.MulKDivMonotone` | 15-Asoc(ALSA System on Chip)/sound/core/pcm_lib.c:706-729 | narrower operands give a narrower a·k/b, open ends included, on positive operands without saturation |
| `HwRules.NoOpIff` | 15-Asoc(ALSA System on Chip)/sound/core/pcm_native.c:1640-1752 | a rule has nothing to do exactly when its target already lies within its output, or all formats have a width in range |
| `HwRules.NoOpMeans` | 15-Asoc(ALSA System on Chip)/sound/core/pcm_native.c:1640-1752 | a rule has nothing to do exactly when its target is supported: the ends of a product or quotient are in place to the next integer, every format has a width in range, the ends of the sample bits are widths of formats, the ends of a listed value are selected list entries, a byte count is whole and small enough |
| `HwRules.WithinCombineIff` | 15-Asoc(ALSA System on Chip)/sound/core/pcm_native.c:1640-1666 | for the four arithmetic rules, in products of integers |
| `HwRules.EnabledMeans` | 15-Asoc(ALSA System on Chip)/sound/core/pcm_native.c:243-244 | a conditional rule is enabled exactly if one of its flags is set |
| `HwRules.OutAdmits` | 15-Asoc(ALSA System on Chip)/sound/core/pcm_native.c:1640-1752 | a rule's output admits the target value of every configuration in the box that satisfies the rule's equation |
| `HwRules.ApplyKeeps` | 15-Asoc(ALSA System on Chip)/sound/core/pcm_native.c:1640-1752 | no rule loses or rejects a configuration in range that satisfies its equation |
| `HwRules.ApplyShrinks` | 15-Asoc(ALSA System on Chip)/sound/core/pcm_native.c:1640-1752 | a rule that succeeds leaves a proper box below the one it found |
| `HwRules.ApplyDrops` | 15-Asoc(ALSA System on Chip)/sound/core/pcm_native.c:1640-1752 | a rule that reports a change makes the box lighter |
| `HwRules.ApplyIdempotent` | 15-Asoc(ALSA System on Chip)/sound/core/pcm_native.c:1640-1752 | running a rule again right away changes nothing, also for the rate list, which reads its own target |
| `HwRules.NoOpSurvives` | 15-Asoc(ALSA System on Chip)/sound/core/pcm_native.c:237-249 | a rule with nothing to do still has nothing to do when only variables outside its dependencies shrank: what the stamps rely on |
| `HwRules.OutMonotone` | 15-Asoc(ALSA System on Chip)/sound/core/pcm_native.c:1640-1752 | on tame boxes a smaller box gives a smaller rule output, for all eight kinds of rule |
| `HwRules.ClosedStaysInside` | 15-Asoc(ALSA System on Chip)/sound/core/pcm_native.c:1640-1752 | a box on which a rule has nothing to do is not cut into when the rule runs on a bigger tame box |
| `HwRules.ChosenMembers` | 15-Asoc(ALSA System on Chip)/sound/core/pcm_lib.c:947-968 | the list entries that decide the hull are exactly the selected ones that pass the membership test |
| `HwRules.WidthsMembers` | 15-Asoc(ALSA System on Chip)/sound/core/pcm_misc.c:307-317 | the widths collected are exactly the positive physical widths of formats in the mask |
| `HwTheory.EnterKeeps` | 15-Asoc(ALSA System on Chip)/sound/core/pcm_native.c:181-231 | intersecting with the constraints loses no configuration that is in the request and in the constraints |
| `HwTheory.EnterShrinks` | 15-Asoc(ALSA System on Chip)/sound/core/pcm_native.c:181-231 | that intersection leaves a proper box below the request |
| `HwTheory.EnterConfines` | 15-Asoc(ALSA System on Chip)/sound/core/pcm_native.c:181-231 | every requested parameter ends within its constraint |
| `HwTheory.ClosedMeans` | 15-Asoc(ALSA System on Chip)/sound/core/pcm_native.c:233-298 | a box on which no enabled rule has anything to do is one in which every enabled rule supports its target |
| `HwTheory.PendingAtStart` | 15-Asoc(ALSA System on Chip)/sound/core/pcm_native.c:233-249 | the rules pending at the start are exactly those with a requested dependency |
| `HwTheory.PendingAfter` | 15-Asoc(ALSA System on Chip)/sound/core/pcm_native.c:244-296 | an execution settles its own rule and makes exactly those others pending that depend on the variable it changed |
| `HwTheory.RunKeeps` | 15-Asoc(ALSA System on Chip)/sound/core/pcm_native.c:237-298 | every state of a run that neither wraps nor fails meets the whole loop invariant |
| `HwTheory.SolvableSettles` | 15-Asoc(ALSA System on Chip)/sound/core/pcm_native.c:233-298 | if any configuration solves the rules, no step of the run from this box wraps |
| `HwTheory.TameSettles` | 15-Asoc(ALSA System on Chip)/sound/core/pcm_native.c:233-298 | the same when lower ends are positive and no product saturates |
| `HwTheory.FinishedRunSettles` | 15-Asoc(ALSA System on Chip)/sound/core/pcm_native.c:233-298 | the same for any box, if carrying the run out to its end meets no wrap: there is only one run |
| `HwTheory.RefusedAtOnceSettles` | 15-Asoc(ALSA System on Chip)/sound/core/pcm_native.c:237-298 | in particular for requests that the first rule refuses |
| `HwTheory.WrapWidens` | 15-Asoc(ALSA System on Chip)/sound/core/pcm_lib.c:570-578 | a concrete box that a product rule makes larger, because an open lower end at `UINT_MAX` steps round to 0 |
| `HwTheory.FullRequestPrimes` | 15-Asoc(ALSA System on Chip)/sound/core/pcm_native.c:235-236 | with every `rmask` bit set each rule starts out with a newer dependency |
| `HwTheory.ExecutedRuns` | 15-Asoc(ALSA System on Chip)/sound/core/pcm_native.c:239-297 | one rule execution that does not wrap keeps the whole loop invariant: box, solutions, closed sub-boxes and truthful stamps; a reported change is progress |
| `HwTheory.ExecutedStamps` | 15-Asoc(ALSA System on Chip)/sound/core/pcm_native.c:244-296 | after an execution every enabled rule still has a newer dependency or nothing to do |
| `HwTheory.StepKeepsSolutions` | 15-Asoc(ALSA System on Chip)/sound/core/pcm_native.c:237-298 | a rule fails only when no configuration in the starting box solves the rules |
| `HwTheory.QuietIsClosed` | 15-Asoc(ALSA System on Chip)/sound/core/pcm_native.c:237-298 | when no rule is pending, rerunning any enabled rule changes nothing |
| `HwTheory.OrderIndependence` | 15-Asoc(ALSA System on Chip)/sound/core/pcm_native.c:237-298 | a greatest closed box, or its absence, does not depend on order and multiplicity of the rules |
| `HwRefine.RefineMask` | 15-Asoc(ALSA System on Chip)/sound/core/pcm_native.c:193-193 | a mask becomes its intersection with the constraint; empty is an error; the return value says whether anything went |
| `HwRefine.WidthRange` | 15-Asoc(ALSA System on Chip)/sound/core/pcm_native.c:1699-1722 | the loop over formats computes the hull of the widths of the formats in the mask |
| `HwRefine.ListRange` | 15-Asoc(ALSA System on Chip)/sound/core/pcm_lib.c:956-966 | the loop over the list computes the hull of the selected entries in the interval |
| `HwRefine.OutsideWidths` | 15-Asoc(ALSA System on Chip)/sound/core/pcm_native.c:1678-1697 | the loop over formats finds exactly those whose width is outside the interval |
| `HwRefine.RunRule` | 15-Asoc(ALSA System on Chip)/sound/core/pcm_native.c:1640-1752 | each rule function, run in place, is one application of the rule to the box |
| `HwRefine.EnterConstraints` | 15-Asoc(ALSA System on Chip)/sound/core/pcm_native.c:181-231 | both constraint loops: fail exactly if some parameter becomes empty, else intersect; what `cmask` does not name is as it was, and what it newly names has changed |
| `HwRefine.NarrowInterval` | 15-Asoc(ALSA System on Chip)/sound/core/pcm_native.c:201-231 | one interval is checked and, if requested, narrowed, and named in `cmask` exactly if that took something away |
| `HwRefine.Stale` | 15-Asoc(ALSA System on Chip)/sound/core/pcm_native.c:244-249 | the dependency scan finds a newer stamp exactly when there is one |
| `HwRefine.Step` | 15-Asoc(ALSA System on Chip)/sound/core/pcm_native.c:239-297 | one pass through the rule loop body executes the rule exactly if it is the next one due of the run, and then makes progress, leaves it not due, or fails without solutions |
| `HwRefine.Pass` | 15-Asoc(ALSA System on Chip)/sound/core/pcm_native.c:238-297 | one pass over all rules either made the box lighter or found no rule pending |
| `HwRefine.Settle` | 15-Asoc(ALSA System on Chip)/sound/core/pcm_native.c:233-298 | the again-loop ends where the one run from this box ends: in a box below the start that keeps all solutions and that no enabled rule can narrow, on tame boxes the greatest such box, or in the failure of a rule when there is no solution |
| `HwRefine.RefineParams` | 15-Asoc(ALSA System on Chip)/sound/core/pcm_native.c:160-329 | the whole call: keeps every requested configuration that satisfies the rules and fails only if there is none; the result is where the run from the constrained request ends, closed under all rules, below the request and within the constraints; exactly what it newly names in `cmask` has been narrowed |
| `HwRefine.RefineInAnyOrder` | 15-Asoc(ALSA System on Chip)/sound/core/pcm_native.c:160-329 | two calls with the same rules in arrays of any order and multiplicity return the same, with the same box |
| `HwStandard.StandardIsWellFormed` | 15-Asoc(ALSA System on Chip)/sound/core/pcm_native.c:1758-1880 | the twenty standard rules have the shape the theory needs |
| `HwStandard.DriverRulesAreWellFormed` | 15-Asoc(ALSA System on Chip)/sound/core/pcm_native.c:1938-1957 | so have the driver's buffer limit and rate list rules |
| `HwStandard.StandardMeans` | 15-Asoc(ALSA System on Chip)/sound/core/pcm_native.c:1758-1880 | a configuration satisfies all twenty rules exactly when it satisfies seven equations between sizes, times and rates |
| `HwStandard.StandardSolves` | 15-Asoc(ALSA System on Chip)/sound/core/pcm_native.c:1758-1957 | hence, with the driver's rules, the equations, the buffer limit and the offered rates alone decide which configurations the solver must keep |
| `HwStandard.StandardRests` | 15-Asoc(ALSA System on Chip)/sound/core/pcm_native.c:1758-1880 | the twenty rules have nothing left to do on a box exactly when in each of the six equations between intervals each of the three variables has its ends where the other two put them, formats and sample bits agree, and whole products are whole |
| `HwStandard.DriverRulesRest` | 15-Asoc(ALSA System on Chip)/sound/core/pcm_native.c:1938-1957 | and the driver's rules exactly when the buffer is whole and small enough and the ends of the rate are offered ones |
| `HwStandard.ClosedRests` | 15-Asoc(ALSA System on Chip)/sound/core/pcm_native.c:1758-1957 | so that this is what a closed box of such a stream is |
| `HwStandard.RefineStandard` | 15-Asoc(ALSA System on Chip)/sound/core/pcm_native.c:160-329 | with the rules every stream has, its driver's included, if any requested configuration in range satisfies the equations and the driver's limits then the call succeeds and keeps every such configuration, within the constraints; with a full request, in every equation of the result each variable has its ends where the other two put them |
| `HwStandard.ContradictoryRequest` | 15-Asoc(ALSA System on Chip)/sound/core/pcm_native.c:237-298 | a wide request that contradicts itself is refused by the first rule, without any wrap |
| `HwStandard.StereoStream` | 15-Asoc(ALSA System on Chip)/sound/core/pcm_native.c:1758-1880 | such configurations exist |
| `HwStandard.TameStream` | 15-Asoc(ALSA System on Chip)/sound/core/pcm_native.c:1758-1880 | and so do boxes that are tame for all standard rules |
| `RationalRates.LowDenIsLargest` | 15-Asoc(ALSA System on Chip)/sound/core/pcm_lib.c:760-770 | every divider setting giving at least q is at most the divider picked |
| `RationalRates.HighDenIsSmallest` | 15-Asoc(ALSA System on Chip)/sound/core/pcm_lib.c:796-806 | every divider setting giving at most q is at least the divider picked |
| `RationalRates.LowDenIsReal` | 15-Asoc(ALSA System on Chip)/sound/core/pcm_lib.c:760-770 | the divider picked is in the clock's range, and one the clock has unless the largest one was asked for and is off the step |
| `RationalRates.HighDenIsReal` | 15-Asoc(ALSA System on Chip)/sound/core/pcm_lib.c:796-806 | the divider picked is on the clock's step and not below its smallest; it is one the clock has if and only if some divider of the clock brings it down to q |
| `RationalRates.HighDenOvershoots` | 15-Asoc(ALSA System on Chip)/sound/core/pcm_lib.c:796-806 | a concrete clock for which rounding up leaves the range |
| `RationalRates.SlowestIsSetting` | 15-Asoc(ALSA System on Chip)/sound/core/pcm_lib.c:752-778 | in terms of the clocks alone: the rate found is that of a divider in range and at least q, no divider setting of any clock at or above q is slower, and if none is found there is none |
| `RationalRates.FastestIsSetting` | 15-Asoc(ALSA System on Chip)/sound/core/pcm_lib.c:786-814 | the mirror image |
| `RationalRates.FindSlowest` | 15-Asoc(ALSA System on Chip)/sound/core/pcm_lib.c:752-778 | the first loop finds the slowest candidate among all clocks, or that there is none, comparing cross-multiplied remainders in machine words |
| `RationalRates.FindFastest` | 15-Asoc(ALSA System on Chip)/sound/core/pcm_lib.c:786-814 | the second loop finds the fastest candidate |
| `RationalRates.AchievedInRange` | 15-Asoc(ALSA System on Chip)/sound/core/pcm_lib.c:783-821 | a rate of at least 1 that a divider achieves inside the interval lies between the two rounded candidates |
| `RationalRates.RateRefinedKeeps` | 15-Asoc(ALSA System on Chip)/sound/core/pcm_lib.c:744-832 | so it survives, and the call does not fail |
| `RationalRates.FindRates` | 15-Asoc(ALSA System on Chip)/sound/core/pcm_lib.c:752-817 | both loops, the second of which is left out if the first finds nothing or the upper end is 0 |
| `RationalRates.RefineToRates` | 15-Asoc(ALSA System on Chip)/sound/core/pcm_lib.c:744-832 | the in-place call keeps every achievable rate of at least 1, and every achievable rate at all exactly if it loses no slow ones; it is the narrowing by the range between the two rates found, which are those of the slowest and the fastest divider settings of the clocks; the ends are no further out than these, to the next integer; it reports the faster one when one value is left, and fails, marking the interval empty, when there is no rate |
| `RationalRates.AllRatesKeptIff` | 15-Asoc(ALSA System on Chip)/sound/core/pcm_lib.c:744-832 | with rates below 1 included, no achievable rate is lost if and only if the interval does not reach down to 0 or no clock can be divided down to less than 1 |
| `RationalRates.RatesBelowOneAreLost` | 15-Asoc(ALSA System on Chip)/sound/core/pcm_lib.c:756-759 | with a lower end of 0 the search starts at 1, and the achievable rate 1/2 is lost: a concrete clock |
| `PcmGeometry.ComputeBoundary` | 15-Asoc(ALSA System on Chip)/sound/core/pcm_native.c:443-445 | the doubling loop ends with the largest power-of-two multiple of the buffer that leaves a buffer's room below the limit |
| `PcmGeometry.CompatPointer` | 15-Asoc(ALSA System on Chip)/sound/core/pcm_compat.c:107-117 | reducing a pointer by the 32-bit boundary keeps its offset in the buffer |
| `PcmGeometry.SlotSurvivesModulus` | 15-Asoc(ALSA System on Chip)/sound/core/pcm_compat.c:419-425 | reducing by any multiple of the buffer size keeps the offset |
| `PcmGeometry.PlaybackAvailExact` | 15-Asoc(ALSA System on Chip)/sound/core/pcm_lib.c:189-201 | playback space from wrapped pointers is the unbounded difference |
| `PcmGeometry.CaptureAvailExact` | 15-Asoc(ALSA System on Chip)/sound/core/pcm_lib.c:189-201 | captured frames from wrapped pointers are the unbounded difference |
| `PcmGeometry.BaseFits` | 15-Asoc(ALSA System on Chip)/sound/core/pcm_lib.c:385-403 | a block start never lies less than a buffer below the boundary |
| `PcmGeometry.SignedSumFits` | 15-Asoc(ALSA System on Chip)/sound/core/pcm_native.c:2296-2297 | the signed sum of two pointers is exact if and only if it fits, and negative otherwise |
| `PcmGeometry.SumOverflows` | 15-Asoc(ALSA System on Chip)/sound/core/pcm_native.c:2296-2297 | a concrete sum that does not fit |
| `PcmPointer.Sanitized` | 15-Asoc(ALSA System on Chip)/sound/core/pcm_lib.c:171-186 | the position used is inside the buffer and aligned: 0 for one out of range, else the last aligned one |
| `PcmPointer.ReportedPosition` | 15-Asoc(ALSA System on Chip)/sound/core/pcm_lib.c:171-186 | the aligned position stands for a frame count between the driver's count and the device |
| `PcmPointer.Follow` | 15-Asoc(ALSA System on Chip)/sound/core/pcm_lib.c:385-404 | for a device less than a buffer ahead, pointer and base follow it across buffer end and boundary, and the unexpected-position exit is not taken |
| `PcmPointer.InterruptStep` | 15-Asoc(ALSA System on Chip)/sound/core/pcm_lib.c:252-290 | on all inputs, with all wrapping cases: when the interrupt follows, is ignored, jumps a block ahead or stays a block behind, by how late it is and whether the block changes |
| `PcmPointer.FollowInterrupt` | 15-Asoc(ALSA System on Chip)/sound/core/pcm_lib.c:226-349 | on all inputs, the pointer is right after the update if and only if the interrupt is not early and not a buffer late at a block change; in the other cases it is left alone or lands exactly one buffer off |
| `PcmPointer.ElapsedFollowsIff` | 15-Asoc(ALSA System on Chip)/sound/core/pcm_lib.c:226-290 | if a period has elapsed, by less than a buffer, the update follows if and only if the mark is not taken to be on another lap |
| `PcmPointer.EarlyIsIgnored` | 15-Asoc(ALSA System on Chip)/sound/core/pcm_lib.c:226-290 | an interrupt before the next mark is ignored, except on a buffer of one period within a block, where it takes the pointer a buffer ahead |
| `PcmPointer.LateFallsBackIff` | 15-Asoc(ALSA System on Chip)/sound/core/pcm_lib.c:226-290 | one a buffer or more past the next mark takes the pointer a buffer back exactly if the device has entered a new block |
| `PcmPointer.NextMarkWraps` | 15-Asoc(ALSA System on Chip)/sound/core/pcm_lib.c:326-338 | the new period mark stands for the next mark, or, half a period too late, for a fresh one at the last multiple of the period |
| `PcmPointer.ElapsedButSkipped` | 15-Asoc(ALSA System on Chip)/sound/core/pcm_lib.c:256-276 | a concrete period interrupt in time that is ignored |
| `PcmPointer.SinglePeriodJumps` | 15-Asoc(ALSA System on Chip)/sound/core/pcm_lib.c:262-288 | a concrete early interrupt that moves the pointer from 2 to 22 with the device at 6 |
| `PcmPointer.LateFallsBack` | 15-Asoc(ALSA System on Chip)/sound/core/pcm_lib.c:252-288 | a concrete late interrupt that moves the pointer from 17 back to 16 with the device at 32 |
| `PcmPointer.TimelyIsNeverLapped` | 15-Asoc(ALSA System on Chip)/sound/core/pcm_lib.c:226-290 | a count at most one period past the mark never meets a lapped mark |
| `PcmPointer.StaysTimelyIff` | 15-Asoc(ALSA System on Chip)/sound/core/pcm_lib.c:326-337 | an update leaves the next one timely exactly when it ran within a period of the mark or so late that the mark was set afresh |
| `PcmPointer.TimelyInterrupt` | 15-Asoc(ALSA System on Chip)/sound/core/pcm_lib.c:226-349 | for a count at most a period past the mark and a device that has reached the next mark, the update puts pointer, base and mark where they belong, across all wraps |
| `PcmRuntime.Runtime.AvailExact` | 15-Asoc(ALSA System on Chip)/sound/core/pcm_lib.c:189-201 | on a valid ring the computed availability is the true distance, also when the hardware has passed the application |
| `PcmRuntime.ChunkSilences` | 15-Asoc(ALSA System on Chip)/sound/core/pcm_lib.c:97-125 | one contiguous chunk of silence extends the silent window and touches nothing outside it |
| `PcmRuntime.PlayedSilenced` | 15-Asoc(ALSA System on Chip)/sound/core/pcm_lib.c:75-90 | silencing what was played leaves pending frames intact and moves the silence ahead on, underrun or not |
| `PcmRuntime.FillDrowns` | 15-Asoc(ALSA System on Chip)/sound/core/pcm_lib.c:68-73 | the fill of a start leaves committed frames intact and silences all else, frames stored but not committed included |
| `PcmRuntime.Runtime.FillSilence` | 15-Asoc(ALSA System on Chip)/sound/core/pcm_lib.c:97-125 | the fill loop silences exactly the frames counted, in chunks inside the buffer, and adds them to `silence_filled` |
| `PcmRuntime.Runtime.PlaybackSilence` | 15-Asoc(ALSA System on Chip)/sound/core/pcm_lib.c:75-126 | after a pointer move exactly the played slots, and what was missing before, are silent, and `silence_filled` is the buffer size |
| `PcmRuntime.Runtime.SilenceAtStart` | 15-Asoc(ALSA System on Chip)/sound/core/pcm_lib.c:68-73 | at start everything outside the frames committed and not yet played becomes silent, also with the hardware past the application or a write in progress |
| `PcmRuntime.Runtime.Start` | 15-Asoc(ALSA System on Chip)/sound/core/pcm_native.c:832-869 | a start is refused with the right error for the wrong state, without frames to play (unless the stop threshold is off) or by the driver; else the stream runs, and with silence filling exactly the frames of a write in progress are silenced, which is counted if one of them was not silent |
| `PcmRuntime.Runtime.DrainStart` | 15-Asoc(ALSA System on Chip)/sound/core/pcm_native.c:1350-1361 | the same for the start of a prepared, non-empty playback stream by a drain |
| `PcmRuntime.Runtime.UpdatePost` | 15-Asoc(ALSA System on Chip)/sound/core/pcm_lib.c:189-218 | in counts: a draining stream with nothing pending is set up, and any other whose distance has reached the stop threshold is in xrun, both with `-EPIPE`; all others keep their state and return 0 |
| `PcmRuntime.Runtime.UpdateHwPtr` | 15-Asoc(ALSA System on Chip)/sound/core/pcm_lib.c:358-435 | the driver's count becomes what the device reports, also past the application; pending frames, and silence outside them, stay in their slots; a pointer that has moved stops the stream exactly when, in counts, nothing is pending in a draining stream or the stop threshold is reached in another, with `-EPIPE` |
| `PcmRuntime.Runtime.UpdateHwPtrInterrupt` | 15-Asoc(ALSA System on Chip)/sound/core/pcm_lib.c:226-349 | the same at a period interrupt, with the new mark and the same rule for stopping; an ignored interrupt leaves everything as it was |
| `PcmRuntime.Runtime.DevicePlays` | 15-Asoc(ALSA System on Chip)/sound/core/pcm_lib.c:358-404 | the frame the device takes from its slot is the next frame of the stream, or silence if there is none and the stream is in full-silence mode |
| `PcmRuntime.Runtime.DeviceCaptures` | 15-Asoc(ALSA System on Chip)/sound/core/pcm_lib.c:358-404 | a captured frame extends the stream; an unread frame it overwrites is counted |
| `PcmRuntime.HoldsAppend` | 15-Asoc(ALSA System on Chip)/sound/core/pcm_lib.c:1795-1812 | a frame stored in the next slot extends the window of frames held |
| `PcmRuntime.HoldsRoll` | 15-Asoc(ALSA System on Chip)/sound/core/pcm_lib.c:1958-2058 | a captured frame enters the window in place of the oldest one |
| `PcmRuntime.Runtime.InterfereOnce` | 15-Asoc(ALSA System on Chip)/sound/core/pcm_lib.c:1632-1656 | a step of the device, a poll, a period interrupt that does not misplace the pointer, a start or another change of state keeps the ring valid and the stream as it was; frames in flight change only by a start, counted, of a silenced stream not started before |
| `PcmRuntime.Runtime.WaitForAvail` | 15-Asoc(ALSA System on Chip)/sound/core/pcm_lib.c:1666-1722 | a wait ends with enough available, with "draining" on capture only, or with the error that the state of the stream, a signal or a timeout accounts for |
| `PcmRuntime.Runtime.ChunkSize` | 15-Asoc(ALSA System on Chip)/sound/core/pcm_lib.c:1791-1803 | a chunk is not empty, and the largest that fits request and space and does not cross the buffer end |
| `PcmRuntime.Runtime.MakeAvail` | 15-Asoc(ALSA System on Chip)/sound/core/pcm_lib.c:1783-1793 | on a running stream the device is asked first; `-EAGAIN` only comes if the caller does not wait and nothing can be transferred; without error something can, or a draining capture stream is empty |
| `PcmRuntime.Runtime.StartAtThreshold` | 15-Asoc(ALSA System on Chip)/sound/core/pcm_lib.c:1828-1834 | a prepared stream with enough frames pending is started, unless the driver refuses or nothing is left to play; no other is touched |
| `PcmRuntime.Runtime.CopyIn` | 15-Asoc(ALSA System on Chip)/sound/core/pcm_lib.c:1725-1742 | copying a chunk overwrites no pending frame while device, interrupts and starts go on; the frames stored are those given exactly if no counted start has hit one |
| `PcmRuntime.Runtime.Commit` | 15-Asoc(ALSA System on Chip)/sound/core/pcm_lib.c:1818-1822 | moving the application pointer over what is stored appends exactly that to the stream |
| `PcmRuntime.Runtime.CommitChunk` | 15-Asoc(ALSA System on Chip)/sound/core/pcm_lib.c:1809-1825 | a committed chunk is in the stream as it was given if and only if it was not hit |
| `PcmRuntime.Runtime.Abandon` | 15-Asoc(ALSA System on Chip)/sound/core/pcm_lib.c:1805-1817 | after a copy given up, all outside the pending window is as silent as before if and only if no frame that is not silent is left ahead of the hardware |
| `PcmRuntime.Runtime.WriteChunk` | 15-Asoc(ALSA System on Chip)/sound/core/pcm_lib.c:1804-1825 | a committed chunk is in the stream as it was given if and only if no counted start came since its copy began; only a breakdown gives one up |
| `PcmRuntime.Runtime.WriteRound` | 15-Asoc(ALSA System on Chip)/sound/core/pcm_lib.c:1779-1836 | one round accepts a prefix of the data, as given if and only if no counted start hit it; it leaves the silence around the pending window alone unless a copy breaks down or a frame is stored behind the hardware; it accepts at least one frame, and then starts the stream if it is due, or fails with an error that has a cause, so the zero-frames check is unreachable |
| `PcmRuntime.Runtime.Write1` | 15-Asoc(ALSA System on Chip)/sound/core/pcm_lib.c:1748-1840 | the frames accepted are a prefix of the data and enter the stream in order, whatever steps of the device, its interrupts, starts and state changes come in between; they are exactly what was given without silence filling, on a stream started before, and whenever no start comes when a frame that is not silent is stored but not committed, and if all are accepted, only then; full silence stays, also after `-EAGAIN`, an interrupted wait or a refusal, unless a frame is stored behind the hardware or a breakdown leaves one that is not silent; a positive return value is their number; fewer frames than given are accepted only because of an error, each of which has its cause in the state of the stream, in a full buffer or outside; when all are accepted, a prepared stream with enough pending has been started unless the driver refused |
| `PcmRuntime.StartDuringWrite` | 15-Asoc(ALSA System on Chip)/sound/core/pcm_lib.c:1803-1822 | a start by another thread during the transfer, on any silenced prepared stream whose driver accepts it: the write commits silence in place of the frame |
| `PcmRuntime.StartDuringWriteHappens` | 15-Asoc(ALSA System on Chip)/sound/core/pcm_lib.c:1803-1822 | and such a stream exists |
| `PcmRuntime.FaultDuringWrite` | 15-Asoc(ALSA System on Chip)/sound/core/pcm_lib.c:1805-1817 | a copy that breaks off after a frame that is not silent, on any quiet stream: the buffer is no longer silent outside the pending window |
| `PcmRuntime.FaultDuringWriteHappens` | 15-Asoc(ALSA System on Chip)/sound/core/pcm_lib.c:1805-1817 | and such a stream exists |
| `PcmRuntime.Runtime.CopyOut` | 15-Asoc(ALSA System on Chip)/sound/core/pcm_lib.c:1939-1955 | what is copied out are the next frames of the stream although the device keeps capturing, unless it overruns the application |
| `PcmRuntime.Runtime.Read1` | 15-Asoc(ALSA System on Chip)/sound/core/pcm_lib.c:1958-2058 | what is returned are the next frames of the captured stream in order, unless the device overran the application; a positive return value is their number; fewer than asked for come only because of an error, each of which has its cause, or at the end of a drained stream, and only there does a read of something return 0; a large enough request starts a prepared stream |
| `PcmRuntime.Runtime.PlaybackRewind` | 15-Asoc(ALSA System on Chip)/sound/core/pcm_native.c:2161-2207 | returns exactly the least of the request and the frames not known to be played, or the error that the state or the device accounts for; takes back exactly these last frames; the rest stay in place and the distance to the hardware stays within a buffer; one that takes nothing back keeps the silence |
| `PcmRuntime.Runtime.PlaybackForward` | 15-Asoc(ALSA System on Chip)/sound/core/pcm_native.c:2257-2304 | returns exactly the least of the request and the free space, or the error that the state or the device accounts for; moves ahead by it, with the stream before it unchanged and the silence kept |
| `PcmRuntime.Runtime.CaptureRewind` | 15-Asoc(ALSA System on Chip)/sound/core/pcm_native.c:2209-2255 | returns exactly the least of the request and the way back to a buffer behind the hardware, or the error accounted for, and goes back by it |
| `PcmRuntime.Runtime.CaptureForward` | 15-Asoc(ALSA System on Chip)/sound/core/pcm_native.c:2306-2353 | returns exactly the least of the request and what was captured, or the error accounted for, and skips it |
| `PcmRuntime.Runtime.MoveBack` | 15-Asoc(ALSA System on Chip)/sound/core/pcm_native.c:2199-2202 | the signed arithmetic of a rewind cannot overflow and yields the wrapped pointer |
| `PcmRuntime.Runtime.MoveAhead` | 15-Asoc(ALSA System on Chip)/sound/core/pcm_native.c:2296-2299 | a forward yields the wrapped pointer if and only if the signed sum fits |
| `PcmRuntime.Runtime.ForwardFitsInTime` | 15-Asoc(ALSA System on Chip)/sound/core/pcm_native.c:2289-2299 | which it does for any forward as long as the hardware is not ahead of the application, on capture by more than a buffer |
| `PcmRuntime.Runtime.RewindThenForward` | 15-Asoc(ALSA System on Chip)/sound/core/pcm_native.c:2161-2353 | forwarding by what a playback rewind returned succeeds and restores the application pointer and the stream, unless the device runs dry in between |
| `PcmRuntime.Runtime.RewindThenForwardCapture` | 15-Asoc(ALSA System on Chip)/sound/core/pcm_native.c:2209-2353 | forwarding by what a capture rewind returned succeeds and restores the application pointer, unless the device runs dry in between; the stream has not changed |
| `PcmRuntime.Runtime.Reset` | 15-Asoc(ALSA System on Chip)/sound/core/pcm_native.c:1228-1273 | a reset puts pointer and application at the aligned position of the device if the stream runs and goes on running, else at 0, and the mark at the last period before it: nothing is pending or captured, and a silenced stream is all silence; a running stream goes into xrun exactly if its device has run dry or moved to the stop threshold |
| `PcmRuntime.Runtime.Prepare` | 15-Asoc(ALSA System on Chip)/sound/core/pcm_native.c:1280-1307 | a prepare puts all pointers at 0 wherever the driver leaves the device, and fails exactly in the states that do not allow it or if the driver does, with the right error |
| `PcmStream.StepAgreesIff` | 15-Asoc(ALSA System on Chip)/sound/core/pcm_native.c:832-1230 | an operation keeps DMA activity and state in agreement if and only if it is not a resume of a running stream with a stale saved state or a refused trigger, nor a drain whose start is refused |
| `PcmStream.StaleResumeBreaks` | 15-Asoc(ALSA System on Chip)/sound/core/pcm_native.c:1123-1165 | a concrete run from a fresh stream that a second resume puts out of agreement |
| `PcmStream.RefusedDrainBreaks` | 15-Asoc(ALSA System on Chip)/sound/core/pcm_native.c:1350-1361 | a concrete run that a drain with a refused start puts out of agreement |
| `PcmStream.RunAgreesIff` | 15-Asoc(ALSA System on Chip)/sound/core/pcm_native.c:832-1388 | agreement holds after every prefix of a run exactly when no step of the run breaks it |
| `PcmStream.DisciplinedRunsAgree` | 15-Asoc(ALSA System on Chip)/sound/core/pcm_native.c:832-1388 | all runs that resume only suspended streams and whose drain triggers succeed keep the agreement |
| `PcmStream.SuspendResume` | 15-Asoc(ALSA System on Chip)/sound/core/pcm_native.c:1031-1160 | suspending stops the DMA and resuming restores state and activity, from every state |
| `PcmStream.RefusedResume` | 15-Asoc(ALSA System on Chip)/sound/core/pcm_native.c:1132-1150 | a refused resume leaves the stream suspended and inactive |
| `PcmStream.StartMeans` | 15-Asoc(ALSA System on Chip)/sound/core/pcm_native.c:832-869 | a start of an agreeing stream runs it exactly if it is prepared, has data and its driver accepts, and changes nothing otherwise |
| `PcmStream.StopMeans` | 15-Asoc(ALSA System on Chip)/sound/core/pcm_native.c:891-937 | stops and drops end set up, or in xrun, with the DMA idle, from every state that allows them; an xrun stops running streams only |
| `PcmStream.PauseMeans` | 15-Asoc(ALSA System on Chip)/sound/core/pcm_native.c:957-1026 | a pause and its release change nothing but a running or paused stream on hardware that can pause, if the driver accepts |
| `PcmStream.SuspendMeans` | 15-Asoc(ALSA System on Chip)/sound/core/pcm_native.c:1031-1165 | a suspend remembers the state and stops the DMA; a resume of a suspended stream restores both, or nothing if the driver refuses a start that is needed |
| `PcmStream.PrepareMeans` | 15-Asoc(ALSA System on Chip)/sound/core/pcm_native.c:1228-1310 | a prepare makes every stream prepared that is there and not running, if the driver's callback works; a reset changes no state |
| `PcmStream.DrainMeans` | 15-Asoc(ALSA System on Chip)/sound/core/pcm_native.c:1350-1440 | what a drain makes of a stream by its state, direction and data, a paused one being released first; no stream keeps running |
| `PcmStream.Stream.Pre` | 15-Asoc(ALSA System on Chip)/sound/core/pcm_native.c:832-1348 | each pre callback returns the right error for the state, capability or data that its action lacks, and 0 otherwise |
| `PcmStream.Stream.Do` | 15-Asoc(ALSA System on Chip)/sound/core/pcm_native.c:844-1378 | what each do callback makes of the DMA, and that only the drain callback changes the state |
| `PcmStream.Stream.Undo` | 15-Asoc(ALSA System on Chip)/sound/core/pcm_native.c:851-1150 | what each undo callback makes of the DMA |
| `PcmStream.Stream.Post` | 15-Asoc(ALSA System on Chip)/sound/core/pcm_native.c:857-1165 | the state each post callback leaves |
| `PcmStream.Stream.ActionSingle` | 15-Asoc(ALSA System on Chip)/sound/core/pcm_native.c:747-761 | the callbacks of an action together amount to one step of the state machine, and it succeeds exactly when the state allows it and the driver goes along |
| `PcmStream.Stream.Drain` | 15-Asoc(ALSA System on Chip)/sound/core/pcm_native.c:1399-1440 | draining releases a pause first, then drains; it is refused only on an open stream, and no stream keeps running |
| `PcmStream.Stream.Drop` | 15-Asoc(ALSA System on Chip)/sound/core/pcm_native.c:1502-1528 | dropping releases a pause first, then stops: every stream but an open, disconnected or suspended one ends set up, with its DMA idle |
| `PcmStream.Stream.Perform` | 15-Asoc(ALSA System on Chip)/sound/core/pcm_native.c:767-1528 | every operation, through its callbacks, is one step |
| `PcmStream.Stream.PerformAll` | 15-Asoc(ALSA System on Chip)/sound/core/pcm_native.c:767-1528 | a whole run through the callbacks ends where the state machine says, in agreement if disciplined |
| `GroupAction.ActionGroup` | 15-Asoc(ALSA System on Chip)/sound/core/pcm_native.c:698-742 | a group action runs exactly the callbacks of a transaction, each at most once, in phase order, and returns the first failure; it fails exactly if some callback does; on success every member has gone through pre, do and post and none through undo, on failure none through post |
| `GroupAction.CallbacksRunLocked` | 15-Asoc(ALSA System on Chip)/sound/core/pcm_native.c:698-742 | every callback of another member runs under its lock, every lock taken is released once after its last use, and the caller's own lock is never touched |
| `GroupAction.AllOrNothing` | 15-Asoc(ALSA System on Chip)/sound/core/pcm_native.c:698-742 | post runs on all members or none; no do runs if any pre fails; no callback is asked after the first failure of its phase; undo covers exactly the members done before a failure |
| `GroupAction.RunPre` | 15-Asoc(ALSA System on Chip)/sound/core/pcm_native.c:706-713 | the first loop asks members in order up to the first refusal, taking locks on the way |
| `GroupAction.RunDo` | 15-Asoc(ALSA System on Chip)/sound/core/pcm_native.c:714-727 | the second loop acts on members in order up to the first failure |
| `GroupAction.RunUndo` | 15-Asoc(ALSA System on Chip)/sound/core/pcm_native.c:717-723 | undo runs on exactly the members before the failed one |
| `GroupAction.UnlockMembers` | 15-Asoc(ALSA System on Chip)/sound/core/pcm_native.c:732-740 | every member lock taken is released |
| `TimerResolution.SameDivisors` | 15-Asoc(ALSA System on Chip)/sound/core/pcm_timer.c:32-45 | a step of Euclid's algorithm keeps the set of common divisors |
| `TimerResolution.Gcd` | 15-Asoc(ALSA System on Chip)/sound/core/pcm_timer.c:32-45 | the result divides both arguments and no common divisor is larger |
| `TimerResolution.OverflowTestIsExact` | 15-Asoc(ALSA System on Chip)/sound/core/pcm_timer.c:66-66 | the division test detects overflow of the word if and only if there is one |
| `TimerResolution.Reduce` | 15-Asoc(ALSA System on Chip)/sound/core/pcm_timer.c:52-64 | the two reductions keep the value 10^9 · period / rate and leave both numerator factors without a common divisor with the denominator |
| `TimerResolution.LowestTerms` | 15-Asoc(ALSA System on Chip)/sound/core/pcm_timer.c:52-64 | dividing by the greatest common divisor leaves none but 1 |
| `TimerResolution.ExactWithoutHalving` | 15-Asoc(ALSA System on Chip)/sound/core/pcm_timer.c:65-75 | without halving the result is the exact integer part of the true value |
| `TimerResolution.BoundedWithHalving` | 15-Asoc(ALSA System on Chip)/sound/core/pcm_timer.c:65-75 | with halving it never exceeds the true value and is low by less than post · (1 + fsize/rate) |
| `TimerResolution.ResolutionChange` | 15-Asoc(ALSA System on Chip)/sound/core/pcm_timer.c:47-76 | the loop ends with a product that fits, halved no more than needed, and the stored value is the one these bounds speak of |
| `LcdPalette.Rgb565` | 08-FrameBuffer_LCD/s3c2410fb_driver.c:506-508 | the packed colour holds the top 5, 6 and 5 bits of the channels |
| `LcdPalette.Framebuffer.WritePalette` | 08-FrameBuffer_LCD/s3c2410fb_driver.c:718-742 | each pending entry is written, and cleared exactly if it reads back; the rest stay pending; no entry's last request is lost |
| `LcdPalette.Framebuffer.Interrupt` | 08-FrameBuffer_LCD/s3c2410fb_driver.c:744-759 | a frame interrupt in which all writes take leaves the hardware equal to the last requests |
| `LcdPalette.Framebuffer.SchedulePaletteUpdate` | 08-FrameBuffer_LCD/s3c2410fb_driver.c:444-465 | the request is pending and no other changes, `palette_ready` is set and the interrupt is enabled |
| `LcdPalette.Framebuffer.SetColReg` | 08-FrameBuffer_LCD/s3c2410fb_driver.c:476-521 | with any interrupts between its two steps and a direct write that may not take, the colour ends up pending and all other requests are kept; without interrupts nothing else changes, and the register shows the colour exactly if the write takes |
| `LcdPalette.Framebuffer.constructor` | 08-FrameBuffer_LCD/s3c2410fb_driver.c:856-857 | an all-clear buffer satisfies the invariant |
| `UartRing.MaskIsRemainder` | 09-Uart_Device/serial_core.c:471-471 | masking with size − 1 is the remainder |
| `UartRing.CountAndSpace` | 09-Uart_Device/serial_core.c:516-516 | count and space add up to size − 1, and the space to the end never runs past the buffer |
| `UartRing.RingAppend` | 09-Uart_Device/serial_core.c:521-522 | bytes copied to the slots from `head` are appended to the ring's contents |
| `UartRing.RingTake` | 09-Uart_Device/samsung.c:311-312 | the byte at `tail` is the first of the contents, and advancing drops exactly it |
| `UartRing.AfterCopy` | 09-Uart_Device/serial_core.c:515-526 | a copy up to the buffer end leaves no space or the head at slot 0, which is why two copies suffice |
| `UartRing.Port.PutChar` | 09-Uart_Device/serial_core.c:459-476 | a byte is accepted exactly when there is a buffer with space, and then appended |
| `UartRing.Port.Write` | 09-Uart_Device/serial_core.c:490-531 | accepts exactly the lesser of the count and the free space, in at most two copies; afterwards, with transmit interrupts before the start, a non-empty ring on a running tty is being sent |
| `UartRing.Port.StartIfNeeded` | 09-Uart_Device/serial_core.c:92-100 | the transmitter is enabled exactly when it already was, or the ring is non-empty and the tty runs |
| `UartRing.Port.TransmitInterrupt` | 09-Uart_Device/samsung.c:282-324 | sends the flow control character alone, or the next bytes of the ring, at most 256 and as many as the FIFO takes, and disables itself when empty or stopped |
| `UartRing.Port.Drain` | 09-Uart_Device/samsung.c:307-314 | bytes sent followed by bytes left are the bytes that were pending |
| `SoundUnits.InsertedAscending` | 15-Asoc(ALSA System on Chip)/sound/sound_core.c:175-226 | inserting between smaller and larger numbers keeps the chain strictly sorted |
| `SoundUnits.DeletedAscending` | 15-Asoc(ALSA System on Chip)/sound/sound_core.c:228-242 | so does deleting |
| `SoundUnits.StepClosed` | 15-Asoc(ALSA System on Chip)/sound/sound_core.c:184-191 | in a chain of one residue mod 16 the number after a taken one cannot be passed by |
| `SoundUnits.LeastFreeMeans` | 15-Asoc(ALSA System on Chip)/sound/sound_core.c:175-195 | the number a first-free search settles on, in plain terms: sixteen apart from the start, free, and none such below it is |
| `SoundUnits.NoneFreeMeans` | 15-Asoc(ALSA System on Chip)/sound/sound_core.c:175-195 | and its failure: no such number below `top` is free |
| `SoundUnits.Chain.FindHole` | 15-Asoc(ALSA System on Chip)/sound/sound_core.c:177-195 | the walk settles on a number all of whose predecessors in the progression are taken |
| `SoundUnits.Chain.Insert` | 15-Asoc(ALSA System on Chip)/sound/sound_core.c:175-226 | first-free insertion returns the least free number below `top`, or fails only if none is free; a given number is claimed exactly when it is not taken; nothing else in the chain changes |
| `SoundUnits.Chain.Remove` | 15-Asoc(ALSA System on Chip)/sound/sound_core.c:228-242 | finds and unlinks the unit exactly when its number is in the chain, and changes nothing otherwise |
| `SoundUnits.Chain.TryRegister` | 15-Asoc(ALSA System on Chip)/sound/sound_core.c:263-291 | one attempt: nothing free, a number registered, or a refused one given back without a trace |
| `SoundUnits.Chain.SearchRegistered` | 15-Asoc(ALSA System on Chip)/sound/sound_core.c:263-289 | the retries end, with the least number that is neither in the chain nor refused, or with failure only if there is none |
| `SoundUnits.Chain.InsertRegistered` | 15-Asoc(ALSA System on Chip)/sound/sound_core.c:255-297 | insertion with registration, of the least such number or of the given one; refused insertions leave no trace |
| `SoundUnits.Chain.Lookup` | 15-Asoc(ALSA System on Chip)/sound/sound_core.c:558-570 | the lookup that stops at the first larger number finds a unit exactly when it is there |

## Left out

- HwRefine.RefineParams: requires that no step of the run from this very request wraps before one fails, because a wrapping rule can widen the box and the loop may then not end; `HwTheory.SolvableSettles`, `HwTheory.TameSettles` and `HwTheory.FinishedRunSettles` are ways to know it.
- HwRefine.RefineParams: requires that the intersection with the constraints does not wrap, and that parameters not named in `rmask` are as an earlier refinement left them; says nothing about the box when that intersection is empty.
- HwRefine.Settle: stamps are unbounded numbers; the 32-bit stamp of the source, which would take 2^32 rule executions in one call to wrap, is not modelled.
- HwTheory.OrderIndependence: speaks of tame boxes only (positive lower ends, no saturating product), where the rules are monotone.
- RationalRates.RefineToRates: clocks must be usable (positive numerator, dividers and step) and the compared products must fit the machine words.
- PcmRuntime.Runtime.UpdateHwPtr: the device is less than a buffer ahead of the driver's count, and less than the boundary ahead of what the wrapped pointers can tell from the application; beyond that the source loses count.
- PcmRuntime.Runtime.UpdateHwPtrInterrupt: excludes the interrupts that misplace the pointer; `PcmPointer.FollowInterrupt` says exactly which they are and where the pointer goes.
- PcmRuntime.Runtime.InterfereOnce: interrupts that misplace the pointer do not come during a transfer; nor do prepare, reset, rewind, forward and other transfers by other threads, which move the application pointer that the transfer has read before.
- PcmRuntime.Runtime.WaitForAvail: whether copies fault, signals come, a timeout comes although enough is available, and starts are refused is a parameter of the transfer; a wait that no frames, no signal and no change of state end runs into the timeout.
- PcmRuntime.Runtime.ChangeState: a stream that has been started becomes prepared again only by a prepare; a resume that is not of a suspended stream could do it too.
- PcmRuntime.Runtime.Read1: a device that overruns the application replaces unread frames; what is then read is not described.
- PcmRuntime.Runtime.PlaybackForward: requires that the signed sum fits; `PcmRuntime.Runtime.MoveAhead` says when. The same holds of capture.
- PcmRuntime.Runtime.CopyIn: a chunk is copied frame by frame; a user copy that fails half-way through a frame is not modelled.
- PcmRuntime.Runtime.SilenceAtStart: full-silence mode only; `silence_size` between 0 and `boundary` selects the threshold mode, which is not part of this model. After a rewind that takes frames back, a frame stored behind the hardware, or a copy given up with a frame left that is not silent, no silence is claimed until the next start or reset.
- PcmStream.Stream.CallTrigger: a refused trigger has no effect, and stop and suspend triggers always take effect; drivers are arbitrary otherwise.
- PcmStream.Stream.Drain: ends where the source starts to wait for the drain to complete; the power wait is not modelled.
- PcmStream.Stream.Do: of the reset and prepare callbacks only the effect on state and DMA; their effect on the pointers is in `PcmRuntime.Runtime.Reset` and `PcmRuntime.Runtime.Prepare`. The same holds of `PcmStream.Stream.Post`.
- GroupAction.ActionGroup: members' callbacks are arbitrary results in a log; the joint state machine of linked streams, and linking and unlinking, are not modelled.
- LcdPalette.Framebuffer.SetColReg: the true-colour pseudo palette is not modelled.
- UartRing.Port.Write: flushing, wake-ups, counters and the clean-up of receive flow control when the transmitter stops are not modelled; between filling the ring and starting the transmitter come transmit interrupts, but no other writers.
- SoundUnits.Chain.InsertRegistered: other threads do not change the chain while the device is being registered; names, device nodes, module references and allocation failure are not modelled.
- SoundUnits.Chain.Insert: first-free search requires chains whose numbers share one residue modulo 16, as all callers in the file arrange.
- Rules without a target, and the step, power-of-two, msbits and ratden rules: the rounding and flags of the source there do not support a clean statement.
- `info`, `fifo_size`, `msbits`, `rate_num` and `rate_den` of the parameters: set from the result, never read by the solver.
- The interval operations write their result through a pointer; the model returns it. Masks, which the kernel keeps as words of bits, are sets.
- Waits are modelled as any number of steps of the device, its interrupts and other threads; the sleeping itself is not.
- Timestamps, jiffies checks, xrun debugging, `avail_max`, wake-ups and quality-of-service requests.
- `snd_pcm_hw_params`, `snd_pcm_hw_free`, `snd_pcm_sw_params` and disconnection, apart from the boundary computation.
- The header helpers of masks, intervals, availability and circular buffers are not in the repository; the model uses their kernel definitions.
- `TimerResolution.ResolutionChange` covers words of any size above 10^9; the check for a rate of 0 after reduction is unreachable and absent.
