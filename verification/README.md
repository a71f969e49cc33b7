# Verified models of the durable and decisive parts of the SEM platform

This Dafny project models the parts of the repository in which a wrong step is costly:
the durable session store, the release regression planner and runner, the scientific
statistics and the claim gate over them, the lifecycle manager, the closed-world
planner, write-once publication, the resume index and the evaluators that replay
receipts. `dafny verify dfyconfig.toml` checks everything.

## The parts

**Session store** (`Characters`, `WalText`, `LawfulCodec`, `SessionStore`,
`SessionProtocol`, `SpoiledRuns`). The log is text: the model splits it as `str.splitlines` does,
character by character, and keeps bytes that are not UTF-8 apart. `SessionStore` has the
store as a class over shared files. `SessionProtocol` cuts a write into its durable steps
and runs any number of handles, crashes, failed writes, tears at any byte and damaged
snapshots against each other. The main results hold for all runs, with an exact condition
for the one way they end: recovery returns the last commit exactly as long as no action
*spoiled* the log. Four actions do: an append cut inside a multi-byte character; a write
that does not rotate the log after a torn append (`session_state_storage.py:400-403`
appends straight after the torn record); a record with U+0085, U+2028 or U+2029 in a
string, because `research_platform/platform/kernel/canonical.py:97-115` does not escape
them and `splitlines` splits there; and a snapshot that `_decode` refuses, because `write`
(`session_state_storage.py:377-406`) does not decode its own document. An example of the
last is a lineage with a positive revision and an empty tail: it passes its constructor
and is refused at `session_state_storage.py:241-242`. The last three report success to the
writer, who could have tested for each of them first; after any of the four the session
can not be read again. `SpoiledRuns` gives for each of the four a run from the empty store
that ends unreadable.

**Release regression** (`ParallelGroups`, `ExclusiveGroups`, `PlannedShards`, `ShardPlan`,
`RegressionRun`, `ReleaseCoverage`). The capacity-bounded scheduler over a heap, the
order-preserving splitter with its optimality, the plan they make together and the
validator that accepts exactly covering plans, and the run as a state machine that may stop
anywhere and resume: every row of it was recorded under its own digests, and it can finish.
`ReleaseCoverage` joins them: a run starts only with a covering plan, and a finished one
has every inventory file in exactly one row.

**Statistics and gate** (`HolmAdjustment`, `MatchedUnits`, `ScientificStatistics`,
`ScientificMetrics`, `EstimandAgreement`, `UnitSpread`, `EffectMeaning`, `StudyPlan`,
`ClaimGate`). Both providers are modelled with their own loops over the observations, proved to give the same estimand
when no observation is duplicated (the metric provider takes the first of two, the
statistics provider the last, and only the metric provider blocks them). `EffectMeaning`
says what is reported in terms of the utilities observed. The gate theorem says exactly
when the gate is open, in terms of the observations and the evidence files supplied.

**Lifecycle** (`LifecycleOrder`, `LifecycleSort`, `LifecycleRun`), **closed world**
(`WorldGraph`, `ClosedWorld`, `ClosedWorldRuns`, `ClosedWorldPlanner`, `ReferenceWorld`), **write-once
publication** (`WriteOnce`), **resume index** (`PythonText`, `NumberedRows`,
`ResumeIndex`, `ResumeRun`) and **receipt replay** (`ReceiptReplay`). In the resume index
one expectation fails, that a source cut once durable stays: the document is replaced by
whatever the publishing index has in memory. `CutStaysExactly` says when, over any run
with any indexes: a durable cut is lost exactly when an index without it publishes. There
are three ways to come to that, each with its run. The write of a cut may raise after it
was durable, and memory never had it (`RaisedCutIsReplaced`). An index opened without a
path starts empty whatever document there is (`minecraft_resume.py:101-102`; with the path
of another file it starts from that file), and
`scripts/sem_paper_minecraft_application.py:1907-1913` opens it so and persists it whenever
`--resume-index` is not given (`RerunReplacesCut`, `OpenWithoutPathLoses`). And two indexes
opened before there is a document do not see each other's cuts (`SecondIndexLosesCut`). A
caller avoids the second by giving a path whenever a document exists, the path of that
document; then a durable cut stays for ever exactly when every running index has it in
memory (`DurableCutStaysExactly`). With one index at a time on top of that, memory is never
ahead of the document, its study never changes and a committed cut is permanent.

`Options`, `Multiples`, `Ranking` and `Sequences` are helpers.

## Conventions

Reals stand for floats. The square root and the tail of the normal distribution are
parameters (`ScientificStatistics.Numerics`), and a lemma that depends on them says what it
asks of them. A digest is represented by what it hashes, or by a function
required to be injective. Component ids in the lifecycle modules are ranks in string
order, and files in `ParallelGroups` are positions in the path-sorted inventory. A heap is
a set or map from which the least entry is taken. Exceptions are result values. A
component's start or stop outcome is membership in a set of failing ids.

## Model

| member | source | states |
|---|---|---|
| WalText.SplitLinesJoin | projects/sem_paper/composition/session_state_storage.py:329 | Splitting the log into lines and joining them gives the text back. |
| WalText.SplitLinesExact | projects/sem_paper/composition/session_state_storage.py:329-336 | A line break stands at the end of every line but possibly the last, and nowhere else. |
| WalText.TearInvisible | projects/sem_paper/composition/session_state_storage.py:332-336 | Appending any text without a newline, so any torn record, changes nothing that the log reader returns. |
| WalText.AppendReads | projects/sem_paper/composition/session_state_storage.py:325-344 | After a complete append the reader returns the old records and the new one if the payload is accepted, the record has no line break inside and the log ended in no unfinished line; otherwise it fails. |
| WalText.BlankLineInvisible | projects/sem_paper/composition/session_state_storage.py:332-334 | A line of blanks is neither a record nor an error. |
| WalText.WidthIsUtf8 | projects/sem_paper/composition/session_state_storage.py:396-400 | The size the rotation counts is the number of bytes of the UTF-8 encoding. |
| LawfulCodec.SampleIsLawful | projects/sem_paper/composition/session_state_storage.py:260-292 | The laws assumed of the record format (round trip of accepted payloads, syntax errors before a record, distinct digests) are consistent: a concrete format that leaves U+2028 unescaped and refuses a payload obeys them. |
| SessionStore.ReadRecords | projects/sem_paper/composition/session_state_storage.py:325-344 | The line loop returns the records that the complete lines decode to and fails at the first complete line that is not one. |
| SessionStore.PickLatest | projects/sem_paper/composition/session_state_storage.py:363-371 | Returns the last candidate of the highest revision when all of that revision carry one digest, and fails when they differ. |
| SessionStore.ChooseExact | projects/sem_paper/composition/session_state_storage.py:363-371 | Said of the candidates alone: the last one of the highest revision, failing exactly when two of that revision have different digests. |
| SessionStore.NothingReadable | projects/sem_paper/composition/session_state_storage.py:346-366 | With no candidate left, a damaged snapshot fails closed and anything else is a fresh start. |
| SessionStore.SeenIdentifies | projects/sem_paper/composition/session_state_storage.py:380-391 | A handle may write over a snapshot exactly when that is the one it saw, payload included. |
| SessionStore.LogStaysBounded | projects/sem_paper/composition/session_state_storage.py:396-403 | The log never outgrows its limit, but by a record that alone is larger, and loses nothing while there is room. |
| SessionStore.FileSEMSessionStateStore.Recover | projects/sem_paper/composition/session_state_storage.py:346-371 | Recovery as a function of the three files: an unreadable log fails, damaged snapshots count only when there is nothing else. |
| SessionStore.FileSEMSessionStateStore.Write | projects/sem_paper/composition/session_state_storage.py:377-406 | Succeeds exactly when the handle saw the latest snapshot or there is none; otherwise no file and no field changes; on success the whole new disk, with the given payload in the primary, and what the handle saw. |
| SessionStore.FileSEMSessionStateStore.Read | projects/sem_paper/composition/session_state_storage.py:408-415 | Returns the recovered snapshot and records it as seen, without touching the files. |
| SessionStore.FileSEMSessionStateStore.RepairPrimary | projects/sem_paper/composition/session_state_storage.py:417-427 | Rewrites only the primary, with the recovered snapshot, and records it as seen. |
| SessionProtocol.WriteIsProtocolRun | projects/sem_paper/composition/session_state_storage.py:377-406 | The uninterrupted write is the composition of the protocol steps backup, journal, primary, return. |
| SessionProtocol.WriteCommitsPayload | projects/sem_paper/composition/session_state_storage.py:377-406 | From every reachable state in which a handle may write, a whole write commits the payload it was given under the next revision, puts it into the primary, keeps the commit before in the backup and tells the handle. |
| SessionProtocol.WriteIsRead | projects/sem_paper/composition/session_state_storage.py:346-406 | What was written is what recovery finds, if it was journalled cleanly, and even without the log if the payload is accepted. |
| SessionProtocol.CommitsWereRequested | projects/sem_paper/composition/session_state_storage.py:377-406 | In every run, with crashes and damage anywhere, each commit is a payload its handle began to write. |
| SessionProtocol.ReaderMayWrite | projects/sem_paper/composition/session_state_storage.py:408-415 | After reading a readable session a handle has the last commit and may write the next. |
| SessionProtocol.RecoveryReturnsLastCommit | projects/sem_paper/composition/session_state_storage.py:346-371 | In every reachable state (any handles, crashes inside any step, damaged snapshots) recovery returns exactly the last committed envelope, or fails because the log is unreadable. |
| SessionProtocol.ReadableExact | projects/sem_paper/composition/session_state_storage.py:325-344 | One action leaves the log readable exactly when it was and the action is not a spoiling one: a tear inside a character, or journalling a payload the decoder refuses, a record with a line break inside, or a record without rotation after an unfinished line. |
| SessionProtocol.RunReadableExact | projects/sem_paper/composition/session_state_storage.py:325-406 | After a whole run recovery works exactly when no action of the run spoiled the log. |
| SessionProtocol.UnreadableForever | projects/sem_paper/composition/session_state_storage.py:325-406 | Once unreadable, over any further actions the log and the commits stay as they are and recovery fails. |
| SessionProtocol.CommitsFormOneChain | projects/sem_paper/composition/session_state_storage.py:377-406 | Over any interleaving of handles and crashes the commits have consecutive revisions, each made by a handle that had last seen exactly the commit before. |
| SessionProtocol.RecoveryNeverGoesBack | projects/sem_paper/composition/session_state_storage.py:346-406 | Whatever happens later, recovery fails closed or returns a revision no older than before, and for the same revision the same envelope. |
| SessionProtocol.HandlesSeeCommits | projects/sem_paper/composition/session_state_storage.py:377-415 | What a handle has seen is a commit, and it may write exactly when that is the last one and the log is readable. |
| SessionProtocol.StaleWriteRejected | projects/sem_paper/composition/session_state_storage.py:380-391 | A write by a handle that has not seen the last commit changes nothing at all. |
| SessionProtocol.OnePayloadPerRevision | projects/sem_paper/composition/session_state_storage.py:367-371 | Two recoverable envelopes with the same revision are the same envelope. |
| SessionProtocol.SnapshotLossInvisible | projects/sem_paper/composition/session_state_storage.py:346-371 | With a readable log and a commit, losing or damaging primary, backup or both does not change what is recovered. |
| SessionProtocol.LogLossLosesAtMostOne | projects/sem_paper/composition/session_state_storage.py:392-404 | Deleting the log after the second commit recovers the last or the last but one commit, whatever happened to the primary, while the backup is undamaged. |
| SessionProtocol.RepairKeepsRecovery | projects/sem_paper/composition/session_state_storage.py:417-427 | Repairing the primary, interrupted or not, does not change what is recovered. |
| SessionProtocol.RepairRestoresPrimary | projects/sem_paper/composition/session_state_storage.py:417-427 | A repair puts the last commit into the primary and touches no other file; the log can then be lost. |
| SessionProtocol.TearLeavesTail | projects/sem_paper/composition/session_state_storage.py:398-403 | A torn record that got past its first character leaves an unfinished line. |
| SessionProtocol.WriteAfterTearIsLost | projects/sem_paper/composition/session_state_storage.py:398-406 | After such a tear a whole write that does not rotate the log ends with its handle told success, and over any further actions recovery fails. |
| SpoiledRuns.RefusedPayloadSpoils | projects/sem_paper/composition/session_state_storage.py:145-257 | A first write of a payload the decoder refuses ends with an unreadable log. |
| SpoiledRuns.LineBreakSpoils | projects/sem_paper/composition/session_state_storage.py:325-344 | So does a first write of a record with a line break inside. |
| SpoiledRuns.StrayByteSpoils | projects/sem_paper/composition/session_state_storage.py:325-344 | So does a first append cut inside a multi-byte character. |
| SpoiledRuns.RetryAfterTearSpoils | projects/sem_paper/composition/session_state_storage.py:393-406 | In every lawful format a first append cut after one character and retried without rotation ends with an unreadable log. |
| SpoiledRuns.EveryWayHappens | projects/sem_paper/composition/session_state_storage.py:325-406 | One lawful format has a run from the empty store that ends unreadable for each of the four ways. |
| SessionProtocol.FirstAppendTorn | projects/sem_paper/composition/session_state_storage.py:373-375 | A crash in the first append leaves a log file and nothing to recover. |
| ParallelGroups.BalancedParallelGroups | scripts/release_regression.py:472-506 | Sorted groups that partition the files, none empty or above the capacity, as many as the bucket count; a group exceeds a group with room by at most its cheapest file. |
| ParallelGroups.Capacity | scripts/release_regression.py:487-488 | The capacity is between 1 and 8, suffices for all files, no bucket could be spared, and no lower capacity would do. |
| ParallelGroups.RoomLeft | scripts/release_regression.py:499-505 | While a file is left the heap is not empty. |
| ParallelGroups.EveryBucketUsed | scripts/release_regression.py:506 | Every bucket ends with a file, so the final filter drops nothing. |
| ParallelGroups.PlaceKeepsBalance | scripts/release_regression.py:499-505 | Placing the next file in the lightest open bucket keeps the balance bound. |
| ParallelGroups.LoadRatio | scripts/release_regression.py:472-506 | A group of k files is at most k/(k-1) times as long as any group with room. |
| ExclusiveGroups.BoundedExclusiveGroups | scripts/release_regression.py:509-545 | The groups concatenate to the files in order, each fits the limits, and no other such split has fewer groups. |
| ExclusiveGroups.NoSplitIsSmaller | scripts/release_regression.py:530-545 | Every split within the limits has at least as many groups as the greedy cut. |
| ExclusiveGroups.FitsExactly | scripts/release_regression.py:530-540 | A group has at most the limit of files, and takes at most the target seconds unless it is one file. |
| ShardPlan.Build | scripts/release_regression.py:548-571 | The plan assigns every inventory file exactly once with its class, indexes count from one, no shard is empty; the parallel classes come first as balanced schedules of their files, then the exclusive files in inventory order in the fewest shards the limits allow. |
| ShardPlan.Validate | scripts/release_regression.py:597-625 | Accepts exactly the plans with distinct indexes and distinct files whose file-to-class map is the inventory's. |
| ShardPlan.SameCountsCover | scripts/release_regression.py:597-625 | Assignments that count every file as often as an inventory of distinct names have distinct names and the same map. |
| ShardPlan.CoversExactly | scripts/release_regression.py:597-625 | A plan covers an inventory exactly when its indexes are distinct and it assigns every file as often as the inventory lists it, with the same class. |
| RegressionRun.PartitionPending | scripts/release_regression.py:658-683 | Cached rows, pending parallel and pending exclusive shards as functions of the durable state and the plan. |
| RegressionRun.PartitionExact | scripts/release_regression.py:658-683 | Every planned shard is in exactly one of the three parts. |
| RegressionRun.ExactlyOnePlace | scripts/release_regression.py:714-837 | In every reachable run each planned shard is in exactly one of pending, active and unrecorded, exclusive, recorded. |
| RegressionRun.WindowBounded | scripts/release_regression.py:714-837 | At most as many shards as the worker limit read at the launch are active, and an exclusive shard runs alone after all parallel ones. |
| RegressionRun.RecordedNeverStarts | scripts/release_regression.py:658-837 | The shard a submit starts is not durably recorded. |
| RegressionRun.RecordsPermanent | scripts/release_regression.py:686-706 | Over any runs stopped and launched with the same digests the plan and every recorded row stay. |
| RegressionRun.PlanStays | scripts/release_regression.py:912-927 | A frozen plan stays through every action under the same digests, with rows or without. |
| RegressionRun.DurablePlansAreSound | scripts/release_regression.py:585-594 | In every run a durable plan has increasing indexes, no empty shard and no file twice. |
| RegressionRun.LaunchExact | scripts/release_regression.py:897-934 | A launch starts a run exactly when its plan covers the inventory; the run goes under the digests, inventory and limit of the launch. |
| RegressionRun.LaunchTakesUp | scripts/release_regression.py:658-683 | A run takes up as results exactly the planned shards recorded under the same digests. |
| RegressionRun.RowsWereRun | scripts/release_regression.py:686-706 | Every row of a run, and every durable row, was recorded for a shard that a run under the same digests had started, with the counts reported then. |
| RegressionRun.RunCanFinish | scripts/release_regression.py:714-837 | From every state of a run some starts, records and retirements finish it. |
| RegressionRun.StartsExactly | scripts/release_regression.py:714-837 | A shard is started whenever the window has room for one. |
| RegressionRun.FinishedHasEveryRow | scripts/release_regression.py:840-865 | A run with nothing left has exactly one row per planned shard, each the durable one for that shard's files. |
| RegressionRun.FinishedMaySummarize | scripts/release_regression.py:840-865 | Such a run meets everything the summary requires. |
| RegressionRun.Summarize | scripts/release_regression.py:840-865 | The totals are the sums over the plan; success exactly when some test was collected. |
| RegressionRun.TotalsAreSums | scripts/release_regression.py:840-848 | Each total is the sum of its own count over the planned rows, and the number of shards is the plan's. |
| ReleaseCoverage.FinishedCoversInventory | scripts/release_regression.py:597-865 | A finished run has every file of the inventory found at its launch, and no other, in exactly one row, and that row is durable. |
| ReleaseCoverage.RunCovers | scripts/release_regression.py:912-934 | A run, resumed or not, starts only with a plan that covers the inventory found at its launch. |
| LifecycleSort.TopologicalOrder | research_platform/execution/lifecycle/manager.py:42-67 | An order exactly when ids are distinct, dependencies exist and there is no cycle: every id once, dependencies first, lexicographically least; otherwise the exact error. |
| LifecycleSort.Sort | research_platform/execution/lifecycle/manager.py:57-64 | The heap loop keeps: the order is a start order of least choices, degrees count the dependencies not yet ordered, the heap is what is available. |
| LifecycleOrder.LeastChoicesAreLeast | research_platform/execution/lifecycle/manager.py:59-64 | Always taking the least available id gives the lexicographically least start order. |
| LifecycleOrder.LeftOutReachCycles | research_platform/execution/lifecycle/manager.py:65-67 | The ids left out are exactly those on a cycle or transitively depending on one. |
| LifecycleRun.StartAll | research_platform/execution/lifecycle/manager.py:69-81 | The calls, evidence and error of a start with its first failure at any position, rollback included. |
| LifecycleRun.Rollback | research_platform/execution/lifecycle/manager.py:75-78 | One stop call per started component, in reverse start order; the failures among them. |
| LifecycleRun.StopAll | research_platform/execution/lifecycle/manager.py:83-92 | Stop calls in reverse order whatever fails, with the exact evidence and failures. |
| LifecycleRun.StartAllAlwaysClosed | research_platform/execution/lifecycle/manager.py:69-81 | At every moment of start_all the live components include all their dependencies. |
| LifecycleRun.StartAllLeavesRunning | research_platform/execution/lifecycle/manager.py:69-81 | A failed start leaves running exactly the started components whose rollback stop failed, so none if no stop fails. |
| LifecycleRun.StopAllSafe | research_platform/execution/lifecycle/manager.py:83-92 | No component is asked to stop while a dependent has not been, and only failed stops stay running. |
| LifecycleRun.FailedStartReports | research_platform/execution/lifecycle/manager.py:69-81 | A failed start names the component that failed and those started before it, and lists as rollback failures exactly the components it leaves running. |
| LifecycleRun.StopFailuresAreRunning | research_platform/execution/lifecycle/manager.py:83-92 | stop_all lists as failures exactly the components it leaves running. |
| LifecycleRun.BackwardsInOrder | research_platform/execution/lifecycle/manager.py:75-92 | Failures are listed from the last component started to the first. |
| LifecycleRun.StartEvidenceAt | research_platform/execution/lifecycle/manager.py:69-81 | The evidence has each component starting and then ready, in start order. |
| LifecycleRun.StopEvidenceAt | research_platform/execution/lifecycle/manager.py:83-92 | The evidence has each component stopping and then stopped or failed, in reverse start order. |
| ClosedWorld.Transit | projects/sem_paper/composition/closed_world_reference.py:119-175 | The new state or the rejection of every action kind. |
| ClosedWorld.Conservation | projects/sem_paper/composition/closed_world_reference.py:119-175 | After any actions each count is the initial one plus collected and crafted minus used, and the transition count grew by the accepted actions. |
| ClosedWorld.PlayCoherent | projects/sem_paper/composition/closed_world_reference.py:119-175 | After any actions the position matches the location, visited has it and no duplicates, and no count is negative. |
| ClosedWorldRuns.AcceptedExactly | projects/sem_paper/composition/closed_world_reference.py:119-175 | Accepted are exactly moves along an edge, collections at the resource's place and crafts at the station with every ingredient there; each rejection has its own code. |
| ClosedWorldRuns.CountRises | projects/sem_paper/composition/closed_world_reference.py:146-168 | A count rises by one at most, and only by collecting at the resource's place or crafting at the station. |
| ClosedWorldRuns.TrailIsWalk | projects/sem_paper/composition/closed_world_reference.py:135-145 | Over any actions the places passed through are a walk of the map from the start to where the run is. |
| ClosedWorldRuns.OnlyReachable | projects/sem_paper/composition/closed_world_reference.py:135-145 | So nothing is reached that the map does not connect. |
| ClosedWorldRuns.VisitedIsTrail | projects/sem_paper/composition/closed_world_reference.py:141-144 | The visited list has exactly the places passed through, once each, in the order of their first visits. |
| ClosedWorldRuns.CraftedAreCrafts | projects/sem_paper/composition/closed_world_reference.py:166-168 | The crafted list has the accepted crafts in order. |
| WorldGraph.ShortestNext | projects/sem_paper/composition/closed_world_reference.py:185-200 | The source itself, nothing exactly when there is no route, else the first step of a shortest route. |
| WorldGraph.HopIsCloser | projects/sem_paper/composition/closed_world_reference.py:185-200 | Taking that step reduces the distance by one. |
| WorldGraph.DistanceBelowPlaces | projects/sem_paper/composition/closed_world_reference.py:185-200 | A distance is below the number of reachable places. |
| ClosedWorldPlanner.Decide | projects/sem_paper/composition/closed_world_reference.py:207-269 | The decision for every goal kind: finish, act where the next need is, or the first step of a shortest path there; the errors exactly. |
| ClosedWorldPlanner.DecisionProgress | projects/sem_paper/composition/closed_world_reference.py:207-311 | For a realizable goal the decision is accepted by the dynamics and decreases units left, ingredients missing, distance, in that order; it is finish exactly when completion holds. |
| ClosedWorldPlanner.LapsDecrease | projects/sem_paper/composition/closed_world_reference.py:207-311 | A numeric bound on the remaining laps strictly decreases. |
| ClosedWorldPlanner.LapsAtMost | projects/sem_paper/composition/closed_world_reference.py:207-311 | That bound in numbers: (units left times recipe size plus one, plus ingredients missing) times the map size, plus the distance left. |
| ClosedWorldPlanner.Pursue | projects/sem_paper/composition/closed_world_reference.py:207-311 | Planning and acting in a loop ends at the target, or with exactly the quantity, within the bound, with every action accepted. |
| ReferenceWorld.ReferenceSound | projects/sem_paper/composition/closed_world_reference.py:29-54 | The reference tables meet what the dynamics need. |
| ReferenceWorld.EveryKnownGoalRealizable | projects/sem_paper/composition/closed_world_reference.py:29-54 | In the reference world every known goal of any quantity is realizable from every place. |
| HolmAdjustment.Adjust | projects/sem_paper/composition/scientific_statistics.py:147-158 | The adjusted values are the running maximum of the capped step-down products in stable rank order. |
| HolmAdjustment.HolmIsClosedTesting | projects/sem_paper/composition/scientific_statistics.py:147-158 | An adjusted value is at most alpha exactly when every set of comparisons with it has a member with set size times p-value at most alpha. |
| HolmAdjustment.HolmRejectsExactly | projects/sem_paper/composition/scientific_statistics.py:147-158 | The same for the products written out: rejection at alpha is closed testing with the Bonferroni test on every set. |
| HolmAdjustment.AdjustedBounds | projects/sem_paper/composition/scientific_statistics.py:147-158 | At least the raw value, at most the number of comparisons times it, capped at one. |
| HolmAdjustment.AdjustedMonotone | projects/sem_paper/composition/scientific_statistics.py:147-158 | A smaller raw value never gets a larger adjusted one. |
| HolmAdjustment.OrderIndependent | projects/sem_paper/composition/scientific_statistics.py:147-158 | Listing the comparisons in another order changes no adjusted value, ties included. |
| MatchedUnits.SampleCount | projects/sem_paper/composition/scientific_statistics.py:97-112 | The number of unit values is the number of repetitions in which every paired seed is present and unblocked. |
| MatchedUnits.TotalWithout | projects/sem_paper/composition/scientific_statistics.py:108-111 | The sum over the seeds does not depend on their order. |
| ScientificStatistics.Compute | projects/sem_paper/composition/scientific_statistics.py:26-177 | One Holm-adjusted comparison per pair of arms with units, with the mean, number, standard error, confidence limits and clipped p-value of its units; missing exactly; the blockers are exactly the seeds without a difference and the incomplete repetitions of each pair. |
| ScientificStatistics.RecordAll | projects/sem_paper/composition/scientific_statistics.py:58-88 | The nested loops record for every pair exactly the differences of every seed, and the blockers are exactly the missing and the blocked ones. |
| ScientificStatistics.UnitValues | projects/sem_paper/composition/scientific_statistics.py:89-112 | The unit values of a pair are the complete repetitions' means, in order, and the other repetitions are exactly reported with expected and actual seeds. |
| ScientificStatistics.EqualUnits | projects/sem_paper/composition/scientific_statistics.py:118-145 | Units of one value have standard error zero, an interval of that point, and a p-value of zero or one that says whether it is zero. |
| ScientificStatistics.IntervalAroundEstimate | projects/sem_paper/composition/scientific_statistics.py:118-145 | The interval is centred on the estimate, and is a point exactly when all units are equal to it. |
| ScientificMetrics.Compute | projects/sem_paper/composition/scientific_metrics.py:61-142 | LTE_SR, CLU and LPI of the matched units, and exactly the blockers for a seed with one of the two arms, a repeated observation, a seed missing or blocked and an incomplete repetition. |
| ScientificMetrics.NoBlockerExactly | projects/sem_paper/composition/scientific_metrics.py:73-123 | There is no blocker exactly when every seed with one arm has both, no observation is repeated and no repetition misses a seed. |
| ScientificStatistics.NoBlockerExactly | projects/sem_paper/composition/scientific_statistics.py:58-112 | There is no blocker exactly when every seed has a difference in every repetition for every pair it declares. |
| EffectMeaning.LifetimeMeans | projects/sem_paper/composition/scientific_metrics.py:93-142 | LTE_SR is SelfEvolve's mean utility over the complete repetitions less FixedSeed's, CLU is SelfEvolve's, LPI the share of complete repetitions in which SelfEvolve did better; they exist exactly when a repetition is complete. |
| EffectMeaning.EffectIsDifference | projects/sem_paper/composition/scientific_statistics.py:85-123 | The effect of a pair is the treatment's mean utility over the complete repetitions less the reference's. |
| EffectMeaning.ComparisonMeans | projects/sem_paper/composition/scientific_statistics.py:118-145 | Every comparison: that effect, the number of units, the standard error from their variance, limits 1.96 errors away, and the p-value as the tail at effect over error. |
| EffectMeaning.AdjustedAreHolm | projects/sem_paper/composition/scientific_statistics.py:147-162 | The adjusted values reported are Holm's for the p-values reported beside them. |
| EffectMeaning.FaultIs | projects/sem_paper/composition/scientific_statistics.py:71-84 | A seed is missing when a utility of either arm is, and blocked when both are there and one is blocked. |
| UnitSpread.VarianceIsPairs | projects/sem_paper/composition/scientific_statistics.py:124 | The variance times n and n-1 is the sum of the squared gaps between every two units. |
| ScientificMetrics.Tabulate | projects/sem_paper/composition/scientific_metrics.py:80-89 | The first observation of a key counts, and duplicates are reported exactly. |
| ScientificMetrics.PositivesExact | projects/sem_paper/composition/scientific_metrics.py:136-142 | LPI's numerator is the number of units with a positive difference. |
| EstimandAgreement.TwoComputationsAgree | projects/sem_paper/composition/scientific_metrics.py:93-142 | Without duplicates LTE_SR equals the SelfEvolve-against-FixedSeed estimate, one exists exactly when the other does, over the same number of complete repetitions. |
| EstimandAgreement.RawReports | projects/sem_paper/composition/scientific_statistics.py:118-145 | Each pair with units has a comparison with their mean and number, a pair without has none. |
| StudyPlan.CoreMatrix | projects/sem_paper/composition/study.py:185-246 | A confirmatory protocol compiles to the Core-6 matrix: each arm for each seed, and no other seed. |
| StudyPlan.ConfirmatoryExactly | projects/sem_paper/composition/study.py:229-245 | Confirmatory are exactly the six named variants, once each, twelve repetitions and the core tier. |
| ClaimGate.LiveReceiptFor | projects/sem_paper/composition/scientific_closure.py:204-267 | The receipt is PASS only if supplied, constructible and bound to the run's five digests; such a receipt is used as it is. |
| ClaimGate.AuxiliaryFor | projects/sem_paper/composition/scientific_closure.py:179-201 | Auxiliary values exactly from a readable file bound to the run. |
| ClaimGate.Evaluate | projects/sem_paper/composition/scientific_closure.py:93-176 | The gate is open exactly when every condition holds; auxiliary values are exactly those of a supplied file bound to the run; a report not bound to the plan is an error. |
| ClaimGate.OpenGateMeans | projects/sem_paper/composition/scientific_closure.py:107-168 | An open gate implies the Core-6 matrix observed unblocked without duplicates, three comparisons over twelve repetitions, all seven estimands, LTE_SR equal to the estimate, the other four from a supplied readable auxiliary file bound to the digests, a supplied PASS receipt bound to the five digests, the mode, bindings and model requests, and nothing blocked in the aggregates. |
| ClaimGate.GateExact | projects/sem_paper/composition/scientific_closure.py:107-168 | The gate is open exactly for a confirmatory protocol in a model-backed baseline with complete ready bindings and model requests, every arm observed once and unblocked for both seeds in all twelve repetitions, nothing blocked in the aggregates, a bound auxiliary file and a sound bound PASS receipt. |
| WriteOnce.TargetIsForever | projects/sem_paper/composition/scientific_auxiliary.py:386-423 | Over any interleaving and crashes the target once visible never changes and is one publisher's whole payload. |
| WriteOnce.OutcomesAgree | projects/sem_paper/composition/scientific_auxiliary.py:386-423 | Every publisher that returned succeeded exactly when the target is its payload. |
| WriteOnce.SuccessesAgree | projects/sem_paper/composition/scientific_auxiliary.py:386-423 | Publishers that both succeeded proposed the same bytes. |
| WriteOnce.PublisherProgress | projects/sem_paper/composition/scientific_auxiliary.py:386-423 | Each step of a publisher brings it closer to returning, whatever the others do. |
| WriteOnce.PublisherReturns | projects/sem_paper/composition/scientific_auxiliary.py:386-423 | A publisher that is scheduled returns, whatever the others did; if nothing was published till then it publishes its own payload with success. |
| WriteOnce.TargetWasProposed | projects/sem_paper/composition/scientific_auxiliary.py:386-423 | What is published is the payload some publisher entered with. |
| PythonText.ParseDecimal | projects/sem_paper/composition/minecraft_resume.py:123-177 | A printed number reads back as itself. |
| PythonText.JoinSplit | projects/sem_paper/composition/minecraft_resume.py:242 | Splitting at colons loses nothing. |
| NumberedRows.Read | projects/sem_paper/composition/minecraft_resume.py:119-128 | Reads the rows exactly when every name is a number in range, every row has a value and no number repeats. |
| ResumeIndex.BranchExact | projects/sem_paper/composition/minecraft_resume.py:227-256 | The parser accepts exactly the ids run:role:rep-N and run:role:rep-N:variant, for any run id. |
| ResumeIndex.PrintedBranchParses | projects/sem_paper/composition/minecraft_resume.py:227-256 | A printed branch id parses back to its repetition. |
| ResumeIndex.ReopenGivesBack | projects/sem_paper/composition/minecraft_resume.py:90-154 | The document published for a joined state is accepted and gives the state back. |
| ResumeIndex.Open | projects/sem_paper/composition/minecraft_resume.py:90-154 | Fails exactly for an unreadable document; otherwise the index has the document's state, or an empty one without a path. |
| ResumeIndex.LoadedMeans | projects/sem_paper/composition/minecraft_resume.py:103-154 | An accepted document has this schema and identity; its state has the cut of every row under its number and every pointer with a cut. |
| ResumeIndex.CutAcceptedExactly | projects/sem_paper/composition/minecraft_resume.py:191-203 | A cut is accepted exactly for a repetition of the study that has none or that one, and adds it and nothing else. |
| ResumeIndex.CheckpointAcceptedExactly | projects/sem_paper/composition/minecraft_resume.py:205-224 | A checkpoint is accepted exactly from a manifest of this run, study and task manifest for a branch of the study whose repetition has the manifest's cut; it becomes the branch's checkpoint. |
| ResumeIndex.MinecraftResumeIndex.SourceCutPublished | projects/sem_paper/composition/minecraft_resume.py:191-203 | The whole effect on memory and document, for every way the durable write ends. |
| ResumeIndex.MinecraftResumeIndex.Published | projects/sem_paper/composition/minecraft_resume.py:205-224 | The whole effect on memory and document, for every way the durable write ends. |
| ResumeIndex.MinecraftResumeIndex.Persist | projects/sem_paper/composition/minecraft_resume.py:185-189 | Republishes the state in memory and changes nothing else. |
| ResumeRun.RunsPrintTheirStates | projects/sem_paper/composition/minecraft_resume.py:90-224 | In every run, however indexes are opened, the document is the printed durable state. |
| ResumeRun.PublishedIsHeld | projects/sem_paper/composition/minecraft_resume.py:205-224 | A publication that completes is in memory and in the document. |
| ResumeRun.PointersAlwaysHaveCuts | projects/sem_paper/composition/minecraft_resume.py:90-224 | In every run, whatever files are opened, every pointer in memory or in the document has the cut of its repetition beside it. |
| ResumeRun.CutStaysExactly | projects/sem_paper/composition/minecraft_resume.py:164-224 | Over any run with any indexes a durable cut stays in the document exactly as long as no index without it publishes. |
| ResumeRun.DurableCutStaysExactly | projects/sem_paper/composition/minecraft_resume.py:95-203 | While indexes open the document, a durable cut stays for ever exactly when every running index has it in memory. |
| ResumeRun.OpenGivesDurable | projects/sem_paper/composition/minecraft_resume.py:95-154 | Opening the document gives back the durable state and is refused under another identity. |
| ResumeRun.NeverAhead | projects/sem_paper/composition/minecraft_resume.py:95-224 | Over any run of one index at a time, each opening the document, memory is the durable state, or lacks only the last publication, whose write raised. |
| ResumeRun.StudyNeverChanges | projects/sem_paper/composition/minecraft_resume.py:109-114 | In such a run the identity of the document never changes. |
| ResumeRun.CommittedCutNeverChanges | projects/sem_paper/composition/minecraft_resume.py:191-203 | After such a run a source cut in memory never changes again, in memory or in the document, while indexes open the document. |
| ResumeRun.RaisedCutIsReplaced | projects/sem_paper/composition/minecraft_resume.py:191-203 | A failing run: a first cut whose write raised after it was durable is replaced by a retry with another cut. |
| ResumeRun.RerunReplacesCut | scripts/sem_paper_minecraft_application.py:1907-1913 | A failing run: a committed cut is replaced by a rerun without a path, in the same study or another. |
| ResumeRun.OpenWithoutPathLoses | projects/sem_paper/composition/minecraft_resume.py:101-102 | Over any document an index opened without a path and persisted leaves a document without cuts. |
| ResumeRun.SecondIndexLosesCut | projects/sem_paper/composition/minecraft_resume.py:191-203 | A failing run: of two indexes opened before there is a document the second to publish loses the cut of the first. |
| ResumeRun.PointersMatchTheirCuts | projects/sem_paper/composition/minecraft_resume.py:205-224 | While indexes open the document, every pointer was published by a manifest of its study for a declared branch whose repetition has the matching cut. |
| ReceiptReplay.ParseBlueprint | projects/sem_paper/composition/minecraft_workload.py:79-113 | Accepts exactly non-empty lists of complete rows with distinct offsets, and keeps them in order. |
| ReceiptReplay.FindAnchor | projects/sem_paper/composition/minecraft_workload.py:620-649 | The anchor of the final observation, else the one shown by a receipt after which no receipt shows one, else none when no receipt does. |
| ReceiptReplay.AwayThenReturn | projects/sem_paper/composition/minecraft_workload.py:712-737 | True exactly when the anchor is found, a verified movement got the departure distance away from it, a strictly later one was within the radius of it, and the final position is. |
| ReceiptReplay.UnprovenMovementIgnored | projects/sem_paper/composition/minecraft_workload.py:722-731 | A receipt that is no movement, not verified, not applied or without a position can be left out anywhere. |
| ReceiptReplay.Pythagoras | projects/sem_paper/composition/minecraft_workload.py:700-709 | The squared distance is the sum of the squares along the three axes, and zero exactly at the anchor. |
| ReceiptReplay.RootCompares | projects/sem_paper/composition/minecraft_workload.py:700-709 | Comparing squared distances is comparing distances. |
| ReceiptReplay.BlueprintComplete | projects/sem_paper/composition/minecraft_workload.py:652-697 | True exactly when the anchor is known and for every cell the last event touching it is a verified placement of the required block. |
| ReceiptReplay.ReplayExact | projects/sem_paper/composition/minecraft_workload.py:665-697 | What the record of known cells says of a cell is what the last event touching it was. |
| ReceiptReplay.PlacementCounts | projects/sem_paper/composition/minecraft_workload.py:674-687 | A placement counts exactly when receipt and result are verified, it was applied as BLOCK_PLACED, and the block placed is the one requested. |
| ReceiptReplay.CellsStayDistinct | projects/sem_paper/composition/minecraft_workload.py:661-664 | Translated cells are pairwise distinct. |
| ReceiptReplay.VerdictIgnoresReceipt | projects/sem_paper/composition/minecraft_workload.py:652-697 | A receipt that touches no required cell can be left out anywhere without changing the verdict on the blueprint. |
| ReceiptReplay.IrrelevantReceipt | projects/sem_paper/composition/minecraft_workload.py:666-696 | Such a receipt leaves the record of the cells as it is. |

## Left out

- Files, processes and locks: replacing a file and linking are atomic steps, the lock is mutual exclusion, fsync is assumed to work, and a crash may fall between any two steps.
- JSON and SHA-256: the session store uses the laws in `WalText.Lawful`, shown consistent in `LawfulCodec`; JSON text is taken to hold no raw carriage return.
- Snapshot documents: which payloads `_decode` accepts is a given predicate, `Codec.accepts`; its single field checks are not spelled out, and a refusal is taken to be the store's own error. What `_document` refuses before anything is written is not modelled.
- Memory of the session store handles is the revision and digest last seen; the decoded snapshot itself is the payload.
- Damage to the log other than torn appends and deletion, and damage that turns a snapshot file into another valid envelope.
- Running the shards: pytest execution, signals, timing history updates, printing and the release evidence file; `timing_history.estimate` is any non-negative function.
- RegressionRun.PartitionExact: covers the frozen plan the state holds; decoding and the legacy formats of the state file are not modelled.
- ShardPlan.Build: inventory names are distinct, as the path-sorted inventory's are; reading the inventory from disk is not modelled.
- ScientificStatistics.Compute: the blockers are a set, so their order and texts are not modelled; square root and erfc are given functions; the effect rows repeat the comparisons under other names.
- ScientificMetrics.Compute: the blockers are a set, so their order, texts and multiplicity are not modelled, nor are non-finite values; auxiliary values enter in `ClaimGate`, which passes on only those bound to the run.
- ClaimGate.Evaluate: the reason texts, the format checks of digests and names in evidence files and the label of the retired extended matrix are not modelled; the metric manifest digest is a given function of the report.
- StudyPlan.CoreMatrix: configuration digests, ablations and comparator roles take no part in the gate and are not modelled.
- LifecycleRun.StartAll: contexts, evidence references and error texts are not modelled.
- ClosedWorld.Transit: payload parsing and the texts of results are not modelled; item counts are unbounded integers as in Python.
- WriteOnce.TargetIsForever: directory creation, temporary file names and clean-up are not modelled; a publisher's temporary file is private.
- ResumeIndex.Open: member order in the JSON object, and numerals in other scripts than ASCII, which Python's `int` accepts, are not modelled; the world cut and manifest keep only the fields that matter here.
- ReceiptReplay.AwayThenReturn: squared distances are compared, which `RootCompares` shows to be the same as distances; parsing of receipts into action results is not modelled.
- The combat evaluator, `always`-style success kinds, live-evidence field checks, the auxiliary producer and its sample directory, and the source tree digest: each is one pass over its input without state kept between calls, so no invariant or relation between functions is at stake.
- Model endpoints, prompts, the Minecraft host, bridge and server scripts, and the command lines.
