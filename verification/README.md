# Verification of the measurement rig and its neighbours

A Dafny model of the parts of the repository whose correctness is arithmetic, state or
scheduling rather than I/O, with proofs of what their documentation and tests promise.

- **Latency recorder** (`Buckets`, `Recording`, `Recorders`, `SharedRecorder`,
  `SharedSums`, `ResetRaces`, over `Counting` and `OrderStatistics`): the logarithmic bucket map, the
  in-place recorder, the sharded merge, and the bucketed quantile as a refinement of the exact
  nearest-rank order statistic, sequentially and under every interleaving of concurrent recordings;
  and a reset whose stores race with them.
- **Open-loop simulator** (`Simulation`, `Queueing`, `Ceilings`): a multi-server queue with a
  queueing and a refusing door. The imperative run over arrays, generator and recorders is proved
  equal to a step-by-step world, about which the ceiling, the order of starts, the two latency
  readings and the dominance of wider ceilings are proved for every specification.
- **Mixers** (`BitWords`, `Mixers`, `HexWords`, `TraceCollisions`): 64-bit words as integers, the
  injectivity of the generator, the hash rounds and the trace folds, and when two simulated worlds
  share a trace hash.
- **Percentiles** (`Percentiles`): one nearest-rank rule computed by three programs.
- **GPU residency runtime** (`Residency`, `ResidencyRuns`): the digest cache, budgets, device life
  cycle and epochs as a class, and whole runs against a backend that is told only about changes and
  one that is handed everything.
- **Syntax diagnostics** (`CursorWalk`, `LineIndex`, `Diagnostics`): the stackless cursor walk, the
  line and column index over UTF-8 text (encoded lengths from section 3 of RFC 3629), and the
  recovery diagnostics built from them.
- **Concurrent protocols** (`WakeupGate`, `TaskSets`, `Tiers`, `Pipeline`, `HeldTail`,
  `Conservation`, `Tallies`): the no-lost-wakeup gate as interleaved atomic steps; permits and task
  sets under a scheduler that bumps, finishes and aborts bodies whenever it likes (nondeterministic
  methods, so every contract holds for every schedule); the pipeline, the held-tail negative
  control, the generator and the gates.
- **Sizing and reading** (`Ladder`, `BaselineChain`, `Decimals`, `Hunks`, `HunkRoundTrip`): the
  offered-rate ladder and knee, the change-detecting baseline with its journal bound, and the
  reader of zero-context unified diffs (POSIX `diff` utility, "Diff -u or -U Output Format").

`Words` holds 64-bit saturating arithmetic and `Options` the optional value. Verify everything with `dafny verify dfyconfig.toml`.

Assumed of code that is not modelled: a task holds its permit for its life and returns it before it
can be joined; `notify_waiters` reaches exactly the futures that exist when it is called; a supervisor
reads a bound of zero as one; the syntax cursor cannot leave the node it was opened on; one step of
the ink engine renders registered hosts only, each at most once, and numbers them in order; every
body that can move eventually does when somebody waits for it; and the atomics of concurrent calls
act in one order of single steps, in which a load returns the last store. The recorder's are
`Relaxed`, which does not promise that across fields: `SharedRecorder`, `SharedSums` and `ResetRaces`
speak of the runs in which it holds.

Where the code and its comments disagree, the code is modelled:

- `bench/async/openloop.rs:75-76` gives the ceiling as about 9.2 hours; `2^35` ns is about 34 s.
- `bench/async/openloop.rs:436-438` says a rate below 1,000 a second truncates to a zero period; only a
  rate of zero or past a billion a second does (`Simulation.PeriodZeroIff`).
- `bench/async/openloop.rs:313` says the quantile at zero is the fastest sample and the one at one the
  slowest, lines 322-324 that it is the maximum, and `bench/async/sim_openloop.rs:761` asks for p50 at
  or above the minimum and p99 at or below the maximum. A quantile is a bucket midpoint and can fall
  outside on either side (`Recorders.QuantilesOutsideTheRange`); `Recorders.QuantileAtZeroIff`,
  `Recorders.QuantileAtOneIff`, `Recorders.QuantileAtLeastMinimumIff` and
  `Recorders.QuantileWithinMaximumIff` say exactly when.
- `bench/async/openloop.rs:213-215` says a completion landing during a reset is counted in one window or
  the other and never in both or neither. It is in the new window if every store of the reset precedes
  the call's effect on that field; if every store follows it is in neither, since
  `bench/async/overload.rs:262-276` reads the old window before it resets; otherwise it is split
  (`ResetRaces.ResetSplitsIff`, and for any number of calls `ResetRaces.WindowCounts`). In the running
  sum a whole old window can be counted in both (`ResetRaces.ResetSum`, `ResetRaces.OldSumReturns`).
- `bench/async/openloop.rs:593-598` says two seeds differ in the hash whenever their schedules do. One
  differing word always changes the hash (`Mixers.OneWordChangesTheHash`), but two seeds of one world
  with different schedules share one (`TraceCollisions.SeedsShareAHash`); exactly when worlds do is
  `TraceCollisions.WorldsCollideIff`.
- `crates/lgwks-ast/src/diagnostic.rs:535-537` says the walk already arrives in the sorted order; it
  does by start byte only (`Diagnostics.WalkAscendsByStart`), and exactly when it is fully sorted is
  `Diagnostics.WalkIsSortedIff`.
- `crates/lgwks-ast/src/hunks.rs:17-19` says a malformed diff never widens what is judged; an added line that
  looks like a file header files later ranges under the file it names (`HunkRoundTrip.MisleadingDiffs`),
  and exactly when that happens is `HunkRoundTrip.FileReadsBackIff`.

## Model

| member | source | states |
|---|---|---|
| Buckets.RangesTile | bench/async/openloop.rs:120-130 | the bucket ranges tile 0 up to 2^35 ns with no gap and no overlap |
| Buckets.SlotIffRange | bench/async/openloop.rs:107-116 | below the ceiling, a latency maps to a bucket if and only if it lies in that bucket's range |
| Buckets.SlotAtCeiling | bench/async/openloop.rs:107-116 | at or past the ceiling every latency maps to the last bucket, so the map is total |
| Buckets.SlotMonotone | bench/async/openloop.rs:107-116 | a larger latency never maps to an earlier bucket, clamped or not |
| Buckets.MidpointInRange | bench/async/openloop.rs:139-142 | the reported value of a bucket lies in its range and maps back to that bucket |
| Buckets.ReportedValue | bench/async/openloop.rs:107-142 | a latency below the ceiling is reported as itself less its remainder modulo the width of its bucket, plus (width - 1) / 2; the width is 1 or at most 1/256 of it |
| Buckets.MidpointError | bench/async/openloop.rs:139-142 | for every latency below the ceiling the reported value is within v/512 of v, on either side |
| Recording.SummaryCounts | bench/async/openloop.rs:188-195 | each bucket counts exactly the samples that map to it |
| Recording.SummaryTallies | bench/async/openloop.rs:188-195 | the total is the number of samples and the clamped count is the number past the ceiling |
| Recording.SummaryExtremes | bench/async/openloop.rs:203-208 | minimum and maximum are attained by recorded (clamped) samples and bound all of them |
| Recording.SummariseAnyOrder | bench/async/openloop.rs:229-257 | any two orders of the same samples give the same counters |
| Recording.SummariseConcat | bench/async/openloop.rs:229-257 | merging the counters of two sample sets gives the counters of their concatenation |
| Recorders.Recorder.Record | bench/async/openloop.rs:188-209 | one call moves the counters from those of the samples so far to those of the samples plus this one, sum saturating |
| Recorders.Recorder.Reset | bench/async/openloop.rs:216-227 | after a reset with nobody recording, the recorder holds no samples |
| Recorders.Merged | bench/async/openloop.rs:229-257 | the merge over any shards is the histogram of all their samples together |
| Recorders.OfOne | bench/async/openloop.rs:355-377 | reading one recorder back gives the histogram of its own samples |
| Recorders.RecorderSet.Take | bench/async/openloop.rs:411-414 | shards are dealt strictly in turn for ever, including across the counter's wrap-around |
| Recorders.BucketsSumToTotal | bench/async/openloop.rs:188-195 | the buckets add up to the total |
| Recorders.FirstBucketAtRank | bench/async/openloop.rs:317-338 | the first bucket whose running count reaches k holds the k-th smallest sample |
| Recorders.SlotOfRank | bench/async/openloop.rs:317-338 | ranking then bucketing equals bucketing then ranking |
| Recorders.Histogram.QuantileNanos | bench/async/openloop.rs:317-338 | for every rational fraction the accumulating loop reports the midpoint of the bucket holding the exact nearest-rank sample |
| Recorders.QuantileError | bench/async/openloop.rs:317-338 | for samples below the ceiling the reported quantile differs from the exact order statistic by at most 1/512 of it |
| Recorders.QuantileMonotone | bench/async/openloop.rs:317-338 | raising samples pointwise, or the fraction, never lowers the reported quantile |
| Recorders.QuantileWithinMaximumIff | bench/async/openloop.rs:317-338 | a reported quantile is past the exact maximum if and only if the ranked sample shares the maximum's bucket and the maximum, modulo the bucket's width, lies before the midpoint |
| Recorders.QuantileAtLeastMinimumIff | bench/async/openloop.rs:317-338 | a reported quantile is below the exact minimum if and only if the ranked sample shares the minimum's bucket and the minimum, modulo the bucket's width, lies past the midpoint |
| Recorders.QuantileAtOneIff | bench/async/openloop.rs:313-338 | the quantile at one is the midpoint of the maximum's bucket; it is the maximum itself if and only if that maximum lies below the ceiling and its remainder modulo the bucket's width w is (w - 1) / 2 rounded down |
| Recorders.QuantileAtZeroIff | bench/async/openloop.rs:313-338 | the same of the quantile at zero and the minimum |
| Recorders.QuantilesOutsideTheRange | bench/async/sim_openloop.rs:761 | one sample of 1024 ns reports a p99 of 1025 ns, above the maximum; one of 1026 ns a p50 of 1025 ns, below the minimum |
| OrderStatistics.OrderStatisticIffRank | bench/std-measure/src/stats.rs:71-81 | the sorted-then-indexed order statistic is the one value satisfying the counting definition of rank |
| SharedRecorder.RunAccounted | bench/async/openloop.rs:188-209 | in every interleaving of atomic steps each shard holds exactly what the completed steps contributed |
| SharedRecorder.QuiescentMergeIsSequential | bench/async/openloop.rs:229-257 | at quiescence, for any dealing of samples to shards and any interleaving, the merge equals one unsharded sequential recorder |
| SharedSums.SerialSumIsExact | bench/async/openloop.rs:200-202 | in every run, a shard no store to which lands between another call's load and store ends with the saturating sum of its samples |
| SharedSums.OverlappedSumIsShort | bench/async/openloop.rs:200-202 | in every run, one such store leaves the sum of positive samples short for good |
| SharedSums.SumIsExactIff | bench/async/openloop.rs:200-202 | for positive samples that fit the word the sum at quiescence is exact if and only if no such store happened |
| SharedSums.ShortSum | bench/async/openloop.rs:200-202 | a concrete run of two calls whose sum is short at quiescence |
| ResetRaces.WindowCounts | bench/async/openloop.rs:211-227 | for any calls and any schedule, once a reset and every call are over, each bucket, the total and the clamped count hold exactly the calls that touched that field after the reset's own store of it |
| ResetRaces.WindowExtremes | bench/async/openloop.rs:211-227 | and the minimum and maximum are those of the calls that touched them after their own stores |
| ResetRaces.ResetSplitsIff | bench/async/openloop.rs:211-227 | of one call racing the reset: the new window holds the whole sample if and only if each store precedes the call's effect on that field, and none of it if and only if each follows; anything else splits it |
| ResetRaces.ResetSum | bench/async/openloop.rs:200-227 | the new sum is the sample's, or the old window's plus the sample's if the store fell between the call's load and its store, or zero |
| ResetRaces.TotalWithoutABucket | bench/async/openloop.rs:211-227 | a concrete race after which the window counts a total without a bucket |
| ResetRaces.OldSumReturns | bench/async/openloop.rs:200-227 | a concrete race after which the whole old sum is in the new window |
| Simulation.IntendedMonotone | bench/async/openloop.rs:472-476 | jitter never reorders arrivals, at any rate and even where the schedule saturates |
| Simulation.CountBusy | bench/async/openloop.rs:634 | the scan counts the servers still busy after the instant |
| Simulation.FindEarliest | bench/async/openloop.rs:642-649 | the scan finds the first of the servers that become free soonest |
| Simulation.Simulate | bench/async/openloop.rs:600-696 | the program's loop over arrays, generator and recorders reports the trace of the step-by-step world, for every spec |
| Queueing.CeilingHolds | bench/async/openloop.rs:621-652 | at every instant at most `bound` admitted service intervals overlap |
| Queueing.PeakIsGreatest | bench/async/openloop.rs:662-663 | the reported peak in flight is the most bodies running at once: no instant has more and some instant has as many |
| Queueing.PeakQueueIsGreatest | bench/async/openloop.rs:664-668 | the reported peak queue is the greatest reading, bodies running plus backlog, over the admitted arrivals |
| Queueing.DelayedIffCeilingReached | bench/async/openloop.rs:632-651 | an arrival is refused or starts late if and only if `bound` bodies are running at its intended instant; on the refusing door an admitted body starts on time |
| Queueing.StartsInArrivalOrder | bench/async/openloop.rs:641-652 | bodies start in arrival order |
| Queueing.OfferedIsAdmittedPlusRefused | bench/async/openloop.rs:634-671 | offered = admitted + refused, and the queueing door refuses none |
| Queueing.ClockIsIntended | bench/async/openloop.rs:628-630 | the model clock always stands at the last arrival's own intended instant |
| Queueing.EventsPersist | bench/async/openloop.rs:621-678 | later arrivals never change what an earlier one was recorded as |
| Queueing.IntendedCoversActual | bench/async/openloop.rs:672-673 | every intended-start latency is at least the actual-start latency of the same body |
| Queueing.QuantilesOfTheTwoReadings | bench/async/openloop.rs:680-693 | intended-start quantiles are never below actual-start ones; on the refusing door they coincide and the lag is zero |
| Ceilings.WideningDelaysNobody | bench/async/openloop.rs:600-678 | on the queueing door, the same arrivals under a wider bound start and end no later, one by one |
| Ceilings.LatenciesNoLarger | bench/async/openloop.rs:672-673 | and every intended-start latency and the worst lag are no larger |
| Ceilings.WideningImprovesTheReport | bench/async/openloop.rs:680-695 | so every reported intended-start quantile, the maximum and the lag are no larger, with the same admissions |
| Ceilings.UnboundCeilingIsInvisible | bench/async/openloop.rs:600-696 | if the narrow bound never made anyone wait, the whole report under a wider one is identical, hash included |
| Ceilings.ActualLatencySameIff | bench/async/openloop.rs:650-652 | a body's actual-start latency is unchanged by widening if and only if its narrow end did not saturate the clock or its start did not move |
| Ceilings.ActualLatenciesSameIff | bench/async/openloop.rs:650-653 | the actual-start latencies of the whole run are unchanged by widening if and only if every body's is |
| Ceilings.SaturationHidesABody | bench/async/openloop.rs:650-652 | a concrete world where saturation makes the median actual-start latency differ between two bounds |
| Ceilings.LongEnoughFits | bench/async/openloop.rs:650-652 | if arrivals x (period + longest body) fits the clock, no end of the run saturates |
| Ceilings.WideningKeepsActualQuantiles | bench/async/openloop.rs:680-693 | under that condition on the specification alone, every actual-start quantile is identical under both bounds |
| Ceilings.ActualQuantilesIdentical | bench/async/openloop.rs:680-693 | with no saturated end, every actual-start quantile is identical under both bounds |
| Mixers.Rng.NextU64 | bench/src/stats.rs:44-51 | each call returns the next draw of the seeded stream |
| Mixers.NeverZero | bench/src/stats.rs:35-51 | from any seed the generator never reaches the absorbing state and never draws zero |
| Mixers.ShuffleInjective | bench/src/stats.rs:44-51 | the state transition loses nothing |
| Mixers.StreamsNeverMerge | bench/src/stats.rs:35-51 | two streams that agree at one position have the same start |
| Mixers.CpuHashRounds | bench/async/support.rs:125-135 | the round loop computes the iterated mixer |
| Mixers.CpuHashInjective | bench/async/support.rs:125-135 | for every round count, distinct seeds give distinct states |
| Mixers.FoldHashInjective | bench/async/openloop.rs:496-498 | equal folds: states agree exactly when words do |
| Mixers.OneWordChangesTheHash | bench/async/openloop.rs:496-498 | two equal-length event traces differing in exactly one word never share a hash |
| Mixers.FoldCollidesIff | bench/async/openloop.rs:496-498 | two folds are equal if and only if the second word is the one the two states and the first word determine |
| Mixers.LastWordCollidesIff | bench/async/openloop.rs:496-498 | for any two traces and any last word of one, exactly one last word of the other gives the same hash |
| Mixers.NextToLastWordCollides | bench/async/openloop.rs:496-498 | equal-length traces whose next-to-last words differ do share a hash, for exactly one choice of the last word |
| TraceCollisions.WorldsCollideIff | bench/async/openloop.rs:592-598 | any two worlds, whatever their specifications and seeds, share a trace hash if and only if the last word of one is the single word the rest of the two traces determines |
| TraceCollisions.SeedsShareAHash | bench/async/openloop.rs:592-598 | two seeds of one small world give different schedules, event by event, and the same trace hash |
| Mixers.TraceHashOf | bench/std-measure/src/stats.rs:108-114 | the loop computes the fold of all raw samples |
| Mixers.OneSampleChangesTheTrace | bench/std-measure/src/stats.rs:108-114 | two sample vectors differing in exactly one sample never share a trace hash |
| Percentiles.Percentile | bench/std-measure/src/stats.rs:71-81 | names the exact nearest-rank sample, and refuses exactly on an empty set or an overflowing product |
| Percentiles.ReferencePercentile | bench/std-measure/src/stats.rs:435-466 | the walked rank names the same sample whenever the product fits, and refuses only an empty set |
| Percentiles.PercentilesAgree | bench/std-measure/src/stats.rs:435-466 | wherever the closed form names a sample the walk names the same one |
| Percentiles.Mean | bench/std-measure/src/stats.rs:90-100 | refuses only an empty set: the accumulator never saturates, the quotient always fits, and it lies between the least and the greatest sample |
| Percentiles.PercentilesOf | crates/drishti/src/runtime.rs:212-243 | frame percentiles are ascending, below the true maximum, and exact order statistics wherever the rank product fits the word; an empty set reports zeros |
| Residency.RememberAnswers | crates/drishti/src/runtime.rs:522-563 | after a host's digest is remembered the cache answers with it, and its answers for other hosts do not move |
| Residency.TotalsSaturateOnce | crates/drishti/src/runtime.rs:450-472 | the saturating running totals are the exact sums capped once at the word's maximum |
| Residency.Runtime.Admit | crates/drishti/src/runtime.rs:522-563 | one receipt: reused exactly when the cache holds this digest for this host |
| Residency.Runtime.AdmitBatch | crates/drishti/src/runtime.rs:492-509 | the admission loop over a frame: cache, receipts, uploads and byte count of the whole batch |
| Residency.Totals | crates/drishti/src/runtime.rs:449-479 | the totals loop computes the saturating sums |
| Residency.Runtime.PresentFrame | crates/drishti/src/runtime.rs:414-518 | the new state and the result of every outcome, each refusal included, in the program's order of checks |
| ResidencyRuns.BatchMeaning | crates/drishti/src/runtime.rs:492-563 | a frame is uploaded exactly when the cache, as it stood before the call, does not hold its digest; reused receipts cost nothing |
| ResidencyRuns.BatchConserves | crates/drishti/src/runtime.rs:492-504 | the renders of a frame are exactly the uploaded and the kept ones |
| ResidencyRuns.RunCoherent | crates/drishti/src/runtime.rs:384-406 | the run invariant holds after every legal sequence of calls |
| ResidencyRuns.ReceiptsAreResident | crates/drishti/src/runtime.rs:118-149 | after every accepted present of every run, each receipt's host is resident with the receipt's digest, on the told-only-changes backend and on the naive one alike |
| ResidencyRuns.FaithfulDigestsMeanIdenticalFrames | crates/drishti/src/runtime.rs:121-149 | with no digest collision within a host, the two backends hold identical frames after every run |
| ResidencyRuns.HeldWasUploadedSince | crates/drishti/src/runtime.rs:384-406 | whatever the cache would reuse was uploaded since it was last emptied |
| ResidencyRuns.ReuseNeedsAnUploadSince | crates/drishti/src/runtime.rs:397-406 | after a loss or recovery a frame is reused only if its host and digest were uploaded since |
| ResidencyRuns.CacheNeverOutgrowsProfile | crates/drishti/src/runtime.rs:546-553 | the cache never holds two entries for a host and never outgrows the host budget |
| ResidencyRuns.RefusalIsTransactional | crates/drishti/src/runtime.rs:408-491 | exactly when each refusal happens, that it changes nothing anywhere, and that an accepted frame is within every budget |
| ResidencyRuns.UnavailableUntilRecovery | crates/drishti/src/runtime.rs:415-422 | a lost or draining device accepts nothing until it is recovered |
| ResidencyRuns.RunConserves | crates/drishti/src/runtime.rs:364-376 | receipts = reused + uploads; the byte counter is the exact cost of the upload log, capped; uploaded + saved bytes = bytes of uploading everything |
| CursorWalk.Walk | crates/lgwks-ast/src/diagnostic.rs:620-653 | the cursor loop terminates, visits exactly the preorder of the tree with each node's true depth, and its peak is the tree's height |
| CursorWalk.PeakIsHeight | crates/lgwks-ast/src/diagnostic.rs:613-638 | the deepest visit of a preorder is the height of the tree |
| CursorWalk.AfterChild | crates/lgwks-ast/src/diagnostic.rs:639-652 | what the walk still owes below a position is its later siblings and then whatever its parent owes |
| Diagnostics.Diagnose | crates/lgwks-ast/src/diagnostic.rs:515-540 | the diagnostics are the recovery nodes of the preorder, reported and stably sorted, and none is an error |
| Diagnostics.RecoveryCount | crates/lgwks-ast/src/diagnostic.rs:560-568 | counts the recovery nodes of the preorder |
| Diagnostics.CountIsLength | crates/lgwks-ast/src/diagnostic.rs:542-568 | the count is the length of the list, for every tree |
| Diagnostics.NoneIffClean | crates/lgwks-ast/src/diagnostic.rs:542-568 | a count of zero if and only if no node, root included, is a recovery node |
| Diagnostics.SortIsStable | crates/lgwks-ast/src/diagnostic.rs:535-539 | the result is ordered by start then end, loses nothing, and keeps ties in walk order |
| Diagnostics.WalkAscendsByStart | crates/lgwks-ast/src/diagnostic.rs:535-539 | the walk of a well-nested tree already ascends by start byte |
| Diagnostics.SortIsNeeded | crates/lgwks-ast/src/diagnostic.rs:535-539 | but not by the full sort key: nested recovery nodes sharing a start are reordered |
| Diagnostics.WalkIsSortedIff | crates/lgwks-ast/src/diagnostic.rs:535-539 | for every well-nested tree and text, the walk is already in the published order if and only if no recovery node has a recovery descendant reported to start with it and end sooner |
| LineIndex.PositionIsCounted | crates/lgwks-ast/src/diagnostic.rs:411-456 | for every text and offset, line = 1 + newlines before the floored byte and column = 1 + characters since the last newline |
| LineIndex.FloorClamps | crates/lgwks-ast/src/diagnostic.rs:439-446 | an offset is floored to the greatest character boundary at or before it, and past the end to the end |
| LineIndex.PositionsOrderedAsBytes | crates/lgwks-ast/src/diagnostic.rs:445-455 | positions are ordered as their bytes, distinct boundaries get distinct line and column pairs, and the map is monotone |
| LineIndex.StartsCount | crates/lgwks-ast/src/diagnostic.rs:413-427 | one line start a newline and one for the first line; the last is where the last line begins |
| LineIndex.EndOfIsTheEnd | crates/lgwks-ast/src/diagnostic.rs:719-721 | a whole-file refusal is an empty span just past the last byte |
| WakeupGate.RunKeeps | bench/async/inflight.rs:49-91 | the gate invariant holds in every interleaving |
| WakeupGate.NobodyLeavesEarly | bench/async/inflight.rs:50-62 | nobody leaves before the flag is set, and the arrival count is exactly the bodies inside |
| WakeupGate.ReachedTierIsAlive | bench/async/inflight.rs:64-79 | when the count reaches the tier before the release, every body of the tier is inside at once |
| WakeupGate.ReleasedBodiesLeave | bench/async/inflight.rs:50-91 | no lost wakeup: after the release each own step brings a body one nearer to returning, three at most, under any schedule |
| WakeupGate.FlagFirstLosesWakeups | bench/async/inflight.rs:53-60 | with the flag read before the future is made, a body can be stuck for ever |
| Tiers.AwaitTier | bench/async/inflight.rs:70-86 | the level reached is the gate's arrival count at some instant, at most the tier; it is the tier unless the wait gave up, which needs an earlier read short of it; where it is the tier every body is inside at that instant |
| Tiers.TierBaseline | bench/async/inflight.rs:254-298 | the whole tier is placed and alive at the release with no work done yet; the level reached is the gate's arrival count, and where it is the tier every body is inside the gate; after the drain every permit and every body is accounted for |
| TaskSets.TaskSet.TrySpawn | bench/async/sides.rs:126-134 | a spawn is placed whenever fewer bodies than permits are retained, and never over an empty pool |
| TaskSets.TaskSet.JoinNext | bench/async/sides.rs:138-143 | one ended body is joined, or there was nothing to wait for |
| TaskSets.TaskSet.Reap | bench/async/engine.rs:141-144 | after a reap no more than the permits are retained, whatever was ever spawned |
| TaskSets.TaskSet.Spawn | bench/async/sides.rs:51-58 | waiting for a permit always ends while some permit is free or held by a body that can move |
| Pipeline.BaselineSide | bench/async/sides.rs:111-172 | for every schedule and bound: exactly `total` spawns (none over an empty pool), at most `bound` alive and retained, no refusal, completed + aborted = spawned, work units exact when nothing aborts |
| HeldTail.FacadeSide | bench/async/sides.rs:36-100 | the spawn loop never deadlocks, held tail or not; a complete drain accounts for everything; the control's counts never reach the held bodies |
| HeldTail.DrainSupervisor | bench/async/support.rs:280-288 | the drain ends, with nothing retained when its target covers every spawn |
| HeldTail.MutantCheck | bench/async/sides.rs:289-357 | in every pair of schedules the gate refuses the control, and on a work-count field, whenever the control holds anything |
| HeldTail.PairedRound | bench/async/sides.rs:229-246 | honest sides agree on every field at any bound of at least one; at bound zero the gate refuses on the completed count |
| HeldTail.Measure | bench/async/sides.rs:206-256 | abort-free rounds are never refused, by the gate or for a tally that changed between rounds; an accepted measurement accounts for every body |
| Tallies.Fairness | bench/async/gate.rs:20-70 | the gate accepts if and only if the tallies are equal |
| Conservation.OpenLoopConserved | bench/async/gate.rs:233-274 | accepts if and only if every arrival is accounted for, every admitted body completed with its work, and nothing is cancelled, aborted or in flight |
| Conservation.DepthTrace.Push | bench/async/driver.rs:88-95 | the trace keeps the first 65,536 depths, counts the rest, and its peak covers both |
| Conservation.Admit | bench/async/engine.rs:215-230 | the backpressure door always places; the refusing door reports whether it did |
| Conservation.OpenLoopRun | bench/async/driver.rs:322-411 | in every schedule and under any clock readings: offered = admitted + refused, completed + aborted + faked = admitted, nothing left in flight; each queue sample is the arrivals due plus at most the ceiling and one, and peak and worst lag are over all of them |
| Conservation.OneOverTheCeiling | bench/async/engine.rs:238-243 | a schedule in which a sample reads one body over the ceiling, a finished one not yet joined |
| Conservation.FakedIsQuotient | bench/async/driver.rs:353-371 | the arrivals faked by a control of every d-th are floor(offered / d) |
| Conservation.GatedRun | bench/async/gate.rs:233-274 | the gate accepts a finished run if and only if nothing aborted and no arrival was faked, on either door; otherwise it names lost work |
| Ladder.LadderShape | bench/async/saturation.rs:120-170 | strictly increasing, within the generator's range, exactly the rungs' rates; clamped tops out at the maximum; unclamped brackets the capacity if and only if it is at least two |
| Ladder.DerivedBodyMeetsTarget | bench/async/saturation.rs:82-95 | a derived body costs at least a microsecond, never lets a ceiling sustain more than the target, and is the least cost covering it |
| Ladder.DedupLosesNoRate | bench/async/saturation.rs:125-128 | removing adjacent duplicates loses no rate and keeps both ends |
| Ladder.LadderMeasuresUpward | bench/async/saturation.rs:395-440 | the points a sweep measures for one bound ascend strictly, whatever it measured at other bounds |
| Ladder.DeclareKnee | bench/async/saturation.rs:503-541 | over points measured up the ladder the kept knee is the highest in-budget rate with its own throughput and reported p99, and zero exactly when there is none |
| BaselineChain.HandRolled.Tick | bench/src/main.rs:277-292 | walks the entries exactly when the polled value moved, firing all of them on an even value |
| BaselineChain.TickAll | bench/src/main.rs:351-358 | one tick of every chain |
| BaselineChain.RunBaseTicks | bench/src/main.rs:351-358 | from any start tick: evaluations = chains x entries x distinct values, fires = chains x entries x distinct even values |
| BaselineChain.WindowCounts | bench/src/main.rs:277-283 | closed forms for the distinct and the distinct even values of a window |
| BaselineChain.FiresBounded | bench/src/scenarios.rs:177-193 | no window of n ticks sees more than ceil(ceil(n / period) / 2) + 1 even values |
| BaselineChain.EventsBounded | bench/src/scenarios.rs:183-200 | a round's journal events never exceed three per possible fire across all sources |
| BaselineChain.EveryRoundFitsTheJournal | bench/src/scenarios.rs:52-133 | no round of any row of the table, wherever it starts, reaches 100,000 events |
| BaselineChain.EvenWindowsFireAlike | bench/src/scenarios.rs:203-219 | an even number of whole periods fires the same count from every aligned start |
| BaselineChain.OddWindowsAlternate | bench/src/scenarios.rs:203-219 | an odd number does not: the starting parity decides |
| BaselineChain.UnwarmedRowsRepeat | bench/src/scenarios.rs:207-219 | every unwarmed row does the same work every round |
| Decimals.ParsePrinted | crates/lgwks-ast/src/hunks.rs:110-113 | a printed number parses back to itself exactly when it fits the word |
| Hunks.AddedLines | crates/lgwks-ast/src/hunks.rs:20-33 | the loop computes the fold of the line reader over the text's lines |
| HunkRoundTrip.HeaderReadsBack | crates/lgwks-ast/src/hunks.rs:106-119 | any printed header reads back to exactly the range it adds, an omitted count meaning one and a zero count none |
| HunkRoundTrip.LinesReadBack | crates/lgwks-ast/src/hunks.rs:20-33 | reading the printed lines of any diff in which nothing is diverted yields, per file, its non-empty added ranges in hunk order |
| HunkRoundTrip.TextReadsBack | crates/lgwks-ast/src/hunks.rs:14-33 | the same on text, through line splitting and CR LF endings; deleting hunks and deleted files add nothing |
| HunkRoundTrip.FileReadsBackIff | crates/lgwks-ast/src/hunks.rs:20-33 | whatever was found before, a file's printed section adds exactly its added ranges if and only if no adding hunk follows, as the last header-like changed line, one that names another file or none |
| HunkRoundTrip.TextReadsBackIff | crates/lgwks-ast/src/hunks.rs:20-33 | the same on the text of the section, through line splitting and CR LF endings |
| HunkRoundTrip.NoPlusesIsPlain | crates/lgwks-ast/src/hunks.rs:23-31 | with no added line starting with two pluses and a space, nothing is diverted |
| HunkRoundTrip.HunkAfterATitle | crates/lgwks-ast/src/hunks.rs:24-30 | after a header-like changed line a hunk is filed under the file that line names, and not read if it names none |
| HunkRoundTrip.MisleadingDiffs | crates/lgwks-ast/src/hunks.rs:24-30 | two printed diffs that do not read back: one files a range under a file it never touched, one loses it |

## Left out

- Recorders.Histogram.QuantileNanos: takes exact rational fractions; the rounding of the floating-point product that names the target rank is not modelled.
- Recorders.Recorder.Record: counters are unbounded where the atomics wrap at 2^64; the running sum saturates as in the code, and is claimed sequentially only.
- Recorders.Recorder.Reset: is a reset while nobody records; a reset racing with recordings is `ResetRaces`, store by store.
- ResetRaces.ResetSum: is for one call on the shard; with more, the sum also loses updates between them as in `SharedSums`.
- Simulation.Simulate: requires the service span to fit a word, which fails only for a minimum of 0 with a maximum of 2^64 - 1, where the program's own addition overflows.
- Ceilings.ActualQuantilesIdentical: asks that no end saturate the clock, which `Ceilings.LongEnoughFits` reduces to the specification; `Ceilings.ActualLatenciesSameIff` is the exact condition on the latencies themselves.
- Residency.Runtime.PresentFrame: epoch, frame and reuse counters are unbounded, so 2^64 recoveries wrapping the epoch are not modelled; trace output is not modelled.
- Residency.Runtime.RegisterHost: host identifiers are unbounded, so 2^32 registrations are not modelled.
- ResidencyRuns.ReceiptsAreResident: speaks of digests, because two frames can share one; `ResidencyRuns.FaithfulDigestsMeanIdenticalFrames` says what follows when none do.
- Diagnostics.Diagnose: feeds the visitor from the finished list of visits rather than from inside the walk.
- Percentiles.PercentilesOf: an interval is its key in the total order of floats, so the reported floats are read back through that order.
- SharedSums.SumIsExactIff: is for positive samples that fit the word; a zero sample can be dropped, and a saturated sum reached, without a trace.
- LineIndex.PositionIsCounted: offsets are unbounded, so the saturating steps on `usize` never bind.
- WakeupGate.ReleasedBodiesLeave: covers one release, which is all the tiers make, and bounds a body's own steps rather than wall time.
- Tiers.TierBaseline: the facade tier is the same protocol through the supervisor and is not modelled a second time; the wait's time limit is a number of polls, and the bodies' steps at the gate are an arbitrary schedule without a release.
- Pipeline.BaselineSide: cancellation tokens are created and never cancelled, so they are not modelled.
- HeldTail.Measure: the discarded warm-up rounds and the times are not modelled.
- HeldTail.FacadeSide: bodies do not panic (a counter bump and a yield), so the supervisor's separate panic count stays zero; its report queue is not modelled.
- Conservation.OpenLoopRun: a run with no arrival limit offers an arbitrary number, standing for what the clock allowed; clock readings are an arbitrary input; at a bound of zero the backpressure door waits for ever and is excluded.
- Conservation.OpenLoopConserved: tallies are unbounded, so the gate's saturating additions never saturate.
- Ladder.DeclareKnee: the achieved throughput is an exact quotient; its floating-point rounding is not modelled.
- BaselineChain.RunBaseTicks: the bot's side of the comparison (its world, ledger and capabilities) is not modelled; only the baseline chains are.
- HunkRoundTrip.TextReadsBack: paths are unquoted and printed without a trailing tab or timestamp; running `git` and listing untracked files are not modelled.
- Wall clocks, resident-set readings, load averages, tables, JSON, argument parsing and process spawning.
- Floating-point statistics: interpolated quantiles, bootstrap intervals, log-log fits, the histogram's mean.
- The internals of tokio, `Supervisor`, tree-sitter and the ink engine, beyond the contracts above.
