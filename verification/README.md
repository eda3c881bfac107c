# Verification of the cognitive evolve runtime

A Dafny 4.11 model of the parts of the runtime whose correctness spans several
functions or a whole protocol, with proofs about it.  `dafny verify
dfyconfig.toml` checks everything.

What is modelled, one module per component:

- **Durable steps** (`DurableSteps`, `DurableHistories`, `ResumePlanning`).  A step directory is
  three files, each replaced atomically, and a process may die between any two
  writes.  `RunStep` is the imperative runner with a fuse that burns one unit
  per atomic write; it is proved equal to a prefix of a specified list of
  events, and crash safety is proved of those events over every history.
  The hash is injective and the called function is nondeterministic: each call
  carries its own outcome.
- **Write-behind observer** (`WriteBehind`).  Caller and worker as a state
  machine over a queue, every interleaving.
- **Cycle-safe conversion** (`ContainerGraphs`, `CycleGuard`,
  `JsonConversion`, `JsonDepth`).  Container graphs are
  finite maps from identities to nodes, so sharing and cycles are explicit.
- **Admission control** (`Budget`, `Governor`, `ApiLimiter`, `SweepLine`).
  Times and costs are reals.  The two limiters keep, as ghost state, the whole
  history of admissions.  Every decision of the governor is proved to be the one
  a limiter with unlimited memory would take; the API limiter may forget a key
  when its table is full, and its decisions are proved to be those of what it
  still recalls, with the exact condition under which they differ.
- **Typed moves and patch merge** (`DictMoves`, `PatchMerge`).  Artifacts are
  trees; a patch list means what applying it to the files does.
- **Archives** (`LatentArchive`, `ParetoFrontier`, `Survivors`,
  `ArchiveLanes`, `ArchiveManagement`).  The latent lane with its exact intent
  index, the survivor selector with its exact size and greedy order, and the
  manager whose lanes stay consistent over every run.
- **Evidence authority** (`Evidence`).  An order-sensitive fold whose verdict
  is a closed form over the records about one artifact.

`Candidates`, `Counting`, `Numbers` and `Wrappers` hold what several modules
share.

Where the code does less than its documentation or its names suggest, the code
is modelled and the exact condition is proved:

- the cycle guard of JSON writes does not enter dataclass records, so it misses
  every cycle that can only be reached or closed by passing through one
  (`CycleGuard.GuardSees`, `JsonConversion.GuardMissesExactly`); the faithfulness
  of guarded writes is stated for graphs without them;
- applying a validated path assignment may raise
  (`DictMoves.OverlappingRequestsCanFail`), exactly when some request does not
  find a dictionary where its key goes (`DictMoves.AppliesIff`);
- it may also be applied and not read back
  (`DictMoves.RepeatedRequestsDoNotReadBack`); it is applied and reads back
  exactly when requests related by prefix agree (`DictMoves.ReadBackIffConsistent`);
- resetting a committed step leaves the old `input.json` in place
  (`DurableHistories.TwoCallsLeaveOldInput`, `DurableHistories.InputFileMatchesIff`);
- a plan may report all committed while steps are still running
  (`ResumePlanning.AllCommittedReportIff`), and gives no action for a stored
  state it does not know (`ResumePlanning.OneActionPerStepIff`);
- zero-length calls may be overcounted (`SweepLine.ZeroLengthIsOvercounted`); the
  count is exact under a finite test on the calls (`SweepLine.SweepIsExactIff`);
- later replaces on a path are checked against the first operation only
  (`PatchMerge.LaterReplacesMayClash`), so they clash exactly when the replaces
  of other texts do (`PatchMerge.KeptReplacesClashIff`);
- a replace given by both sides is applied once
  (`PatchMerge.DroppedReplaceChangesMeaning`); a clean merge has the effect of all
  operations throughout exactly when the dropped replaces would change nothing
  (`PatchMerge.MergeKeepsMeaningIff`);
- a bucket of the latent lane may stay over its quota
  (`LatentArchive.BucketsMayExceedQuota`), exactly when a candidate beyond it is
  kept for another intent (`LatentArchive.BucketExceedsQuotaIff`);
- the API limiter forgets its oldest key when its table is full, and may then
  admit too much (`ApiLimiter.ForgottenKeyIsAdmitted`), exactly when the forgotten
  admissions of the last minute make up the limit (`ApiLimiter.DecisionDiffersIff`);
- applying an evidence record that is already stored changes scores
  (`Evidence.OldRecordRewritesScores`), exactly when it does not repeat the ones it
  sets (`Evidence.ScoresStandIff`); it changes nothing else
  (`Evidence.Candidate.ApplyEvidenceRecord`);
- reactivation with the empty id skips the lineage check
  (`ArchiveLanes.EmptyIdSkipsTheFreeze`), exactly when the first parked candidate
  is a refused one (`ArchiveLanes.RefusedComesBackIff`).

## Model

| member | source | states |
|---|---|---|
| CycleGuard.HasCycle | cognitive_evolve_runtime/durable/file_lock.py:181-198 | on every finite container graph, including cyclic and shared ones, the search ends and answers true exactly when a cycle can be reached from the root; every container is entered at most once |
| CycleGuard.GuardSees | cognitive_evolve_runtime/durable/file_lock.py:141-155 | what the search sees: it enters dictionaries and lists only, so it finds exactly the cycles that can be reached and closed without passing through a dataclass record |
| JsonConversion.JsonReady | cognitive_evolve_runtime/core/serialization.py:22-69 | the recursion with its mutated path set ends on every graph, computes the path-cut unfolding, and leaves the path set as it found it |
| JsonConversion.MarkerIffCycle | cognitive_evolve_runtime/core/serialization.py:22-69 | the converted document contains the circular marker if and only if a cycle is reachable from the root |
| JsonConversion.UnfoldingIsUnique | cognitive_evolve_runtime/core/serialization.py:22-69 | there is at most one marker-free document that unfolds a graph |
| JsonConversion.ConversionIsTheUnfolding | cognitive_evolve_runtime/core/serialization.py:22-69 | the conversion is the full unfolding of the graph if and only if no cycle is reachable |
| JsonConversion.JsonFile.AtomicWriteJson | cognitive_evolve_runtime/durable/file_lock.py:138-178 | refuses non-objects and, unless cycles are allowed, graphs the guard finds cyclic, leaving the file alone; otherwise the file becomes the converted document |
| JsonConversion.GuardedWriteIsFaithful | cognitive_evolve_runtime/durable/file_lock.py:148-178 | for graphs without dataclass records a write that passes the guard stores the full unfolding |
| JsonConversion.GuardMissesExactly | cognitive_evolve_runtime/durable/file_lock.py:148-178 | once the guard has passed, the marker is written exactly when a walk from the root passes through a dataclass record and comes back to a container it has visited |
| JsonConversion.RecordCycleEscapesGuard | cognitive_evolve_runtime/durable/file_lock.py:181-198 | a cycle through a dataclass record passes the guard although the conversion then inserts the marker |
| JsonDepth.DepthIsLongestPath | cognitive_evolve_runtime/evidence/planner.py:101-116 | independent definition of the depth: one more than the longest path of child indices that can be followed |
| JsonDepth.IterativeJsonDepth | cognitive_evolve_runtime/evidence/planner.py:101-116 | the explicit-stack loop ends and returns the depth, or with a limit the depth cut off one level beyond it |
| JsonDepth.LimitIsDecided | cognitive_evolve_runtime/evidence/planner.py:101-116 | the result exceeds the limit exactly when the true depth does, and otherwise is the true depth |
| DictMoves.JoinSplit | cognitive_evolve_runtime/candidates/mutation.py:691-695 | splitting a dotted path at its dots and joining the parts gives the text back |
| DictMoves.ParseIsInjective | cognitive_evolve_runtime/candidates/mutation.py:691-712 | two raw paths that name the same place differ only in surrounding white space |
| DictMoves.ParsedIff | cognitive_evolve_runtime/candidates/mutation.py:691-695 | a path is accepted exactly when the stripped text is nonempty parts without dots, joined by dots |
| DictMoves.StripIs | cognitive_evolve_runtime/candidates/mutation.py:691-695 | stripping takes blanks off both ends and nothing else |
| DictMoves.ReadDictPath | cognitive_evolve_runtime/candidates/mutation.py:698-704 | the walking loop reads what the recursive definition reads, and fails on the same paths |
| DictMoves.WriteThenRead | cognitive_evolve_runtime/candidates/mutation.py:698-712 | a written path reads back the written value |
| DictMoves.WriteLeavesUnrelated | cognitive_evolve_runtime/candidates/mutation.py:707-712 | every path unrelated by prefix reads as before the write |
| DictMoves.WriteBack | cognitive_evolve_runtime/candidates/mutation.py:698-712 | writing back what was read changes nothing |
| DictMoves.ReadThrough | cognitive_evolve_runtime/candidates/mutation.py:698-704 | reading a concatenated path is reading the second part below the first |
| DictMoves.ReadBackIffConsistent | cognitive_evolve_runtime/candidates/mutation.py:680-688 | a list of assignments to existing paths succeeds with every request reading back if and only if requests related by prefix agree with each other |
| DictMoves.AppliesIff | cognitive_evolve_runtime/candidates/mutation.py:680-712 | the writes succeed if and only if each request finds a dictionary at its parent: in the value of the last earlier request at or above that place, or in the artifact if there is none |
| DictMoves.WriteIff | cognitive_evolve_runtime/candidates/mutation.py:707-712 | one write succeeds exactly when there is a dictionary at the parent of its path |
| DictMoves.AssignAllFrame | cognitive_evolve_runtime/candidates/mutation.py:680-688 | paths unrelated to every assigned path keep their values |
| DictMoves.ValidateDictMove | cognitive_evolve_runtime/candidates/mutation.py:644-677 | accepts exactly the valid plans, and otherwise reports the first failing item |
| DictMoves.ValidatedRequest | cognitive_evolve_runtime/candidates/mutation.py:644-688 | what validation grants: an existing place, the same type for assignments, a nonempty object for splits, and for strengthenings the old array with one new member that equals none of the old |
| DictMoves.PyEqIsAnEquivalence | cognitive_evolve_runtime/candidates/mutation.py:644-678 | equality as the original compares values is reflexive, symmetric and transitive |
| DictMoves.ApplyDictMove | cognitive_evolve_runtime/candidates/mutation.py:680-688 | the loop gives the requested writes in order; it raises exactly when some request does not find a dictionary where its key goes |
| DictMoves.RecomputeMoveDelta | cognitive_evolve_runtime/candidates/mutation.py:521-536 | reads each requested path in parent and child, and fails exactly when one of them cannot be read |
| DictMoves.ExecuteDictMove | cognitive_evolve_runtime/candidates/mutation.py:521-536 | main result: with consistent requests the move succeeds, every request reads back, unrelated paths are untouched, and the recomputed delta is the requested list of changes, each with before different from after |
| DictMoves.SeparatePathsSuffice | cognitive_evolve_runtime/candidates/mutation.py:644-688 | pairwise unrelated paths, and any plan with a single request, are consistent |
| DictMoves.StrengtheningExtends | cognitive_evolve_runtime/candidates/mutation.py:664-688 | a constraint strengthening leaves the old array as a strict prefix of the new one, one longer |
| DictMoves.OverlappingRequestsCanFail | cognitive_evolve_runtime/candidates/mutation.py:644-688 | a validated plan whose application raises, because one request removes the place of a later one |
| DictMoves.RepeatedRequestsDoNotReadBack | cognitive_evolve_runtime/candidates/mutation.py:680-688 | a validated plan that is applied and does not read back, because its second request overwrites the first |
| DurableSteps.StepStatus.Transition | cognitive_evolve_runtime/durable/step_state.py:64-73 | moves to the new state exactly when the transition table allows it, and otherwise changes nothing |
| DurableSteps.EnteredFrom | cognitive_evolve_runtime/durable/step_state.py:32-41 | the transition table read by target: from which states each state can be entered |
| DurableSteps.CheckpointStore.WriteStatus | cognitive_evolve_runtime/durable/checkpoint_store.py:46-56 | one atomic status write, or a crash before it |
| DurableSteps.CheckpointStore.CheckpointInput | cognitive_evolve_runtime/durable/checkpoint_store.py:25-41 | the writes that open a step, with a crash possible between any two |
| DurableSteps.CheckpointStore.CommitOutput | cognitive_evolve_runtime/durable/checkpoint_store.py:59-66 | output first, committed status second, with a crash possible between the two |
| DurableSteps.RunStep | cognitive_evolve_runtime/durable/step_runner.py:18-64 | under a crash after any number of atomic writes the disk is the same prefix of the specified run of events, and the reply is the specified one |
| DurableHistories.RunIsSafe | cognitive_evolve_runtime/durable/step_runner.py:28-64 | every single event of a call is safe: statuses follow the table, outputs and executions happen only inflight, executions never exceed the stored attempt |
| DurableHistories.EveryHistoryKeepsInv | cognitive_evolve_runtime/durable/step_runner.py:28-64 | after every history of calls, crashes and outside status changes, a committed status has an output that hashes to the stored hash and was returned by an execution on the stored input hash, and executions since the last reset are at most the stored attempt |
| DurableHistories.StoredStatusesFollowTheTable | cognitive_evolve_runtime/durable/step_state.py:32-41 | every status ever stored is a legal successor of the one before it, or resets a committed step; executions happen only inflight |
| DurableHistories.CommittedAnswersAreStable | cognitive_evolve_runtime/durable/step_runner.py:29-34 | once an input is committed every later call with it returns the stored output and changes nothing, until another input intervenes |
| DurableHistories.DeadStepsStayDead | cognitive_evolve_runtime/durable/step_state.py:32-41 | a terminally failed or cancelled step never changes state and its function is never called again |
| DurableHistories.EveryCrashIsRecoverable | cognitive_evolve_runtime/durable/step_runner.py:28-64 | from any reachable disk an uninterrupted call whose function returns either is refused on a dead step or ends committed with its reply stored |
| DurableHistories.CallRunsOnce | cognitive_evolve_runtime/durable/step_runner.py:28-64 | a call that is neither answered from the store nor refused runs the function once, counts one attempt, and stores the state its outcome deserves |
| DurableHistories.ReadyBeforeLaunch | cognitive_evolve_runtime/durable/step_runner.py:37-47 | the function is called right after an inflight status with one more attempt, and that one follows a ready status unless the step was inflight already |
| DurableHistories.FailedCallLeaves | cognitive_evolve_runtime/durable/step_runner.py:54-60 | a call that ends with a retryable error leaves the step retryably failed and the next call is accepted; any other error leaves it terminally failed and the next call is refused |
| DurableHistories.InputFileMatchesIff | cognitive_evolve_runtime/durable/checkpoint_store.py:25-41 | after a full call the stored input is the call's input exactly when it was rewritten or already equal |
| DurableHistories.ResetLeavesOldInput | cognitive_evolve_runtime/durable/checkpoint_store.py:25-41 | after the reset of a committed step the stored input still belongs to the earlier call |
| DurableHistories.TwoCallsLeaveOldInput | cognitive_evolve_runtime/durable/checkpoint_store.py:25-41 | from an empty directory two uninterrupted calls with different inputs end with the first input beside the status of the second |
| ResumePlanning.Planner.Plan | cognitive_evolve_runtime/durable/resume_planner.py:52-86 | the loop gives the specified actions, counters and plan status |
| ResumePlanning.VerbsMatchTheRunner | cognitive_evolve_runtime/durable/resume_planner.py:52-73 | a stopped step is exactly one whose every call the runner refuses, a skipped one answers its own input from the store, and one to retry or run accepts a call and runs it once |
| ResumePlanning.MarkedIff | cognitive_evolve_runtime/durable/resume_planner.py:52-73 | a step is marked exactly when it is inflight and its last update is out of time or unreadable |
| ResumePlanning.PlanCoversEveryStep | cognitive_evolve_runtime/durable/resume_planner.py:52-86 | counters, waiting steps and steps of unknown state add up to the number of steps, and every known step has one action |
| ResumePlanning.OneActionPerStepIff | cognitive_evolve_runtime/durable/resume_planner.py:52-86 | there is exactly one action per step if and only if no stored state is unknown |
| ResumePlanning.UnknownStateIsPassedOver | cognitive_evolve_runtime/durable/resume_planner.py:52-86 | a stored state the planner does not know gets no action, and the plan still reports all committed |
| ResumePlanning.AllCommittedReportIff | cognitive_evolve_runtime/durable/resume_planner.py:74-85 | a plan that reports all committed is right exactly when no step is waiting inflight and none has an unknown state |
| ResumePlanning.AllCommittedReportCanMislead | cognitive_evolve_runtime/durable/resume_planner.py:74-85 | a step still running does not keep the plan from reporting all committed |
| ResumePlanning.Planner.MarkListedSteps | cognitive_evolve_runtime/durable/resume_planner.py:88-96 | the loop over the plan changes exactly the listed steps that are still inflight |
| ResumePlanning.Planner.ApplyStaleInflight | cognitive_evolve_runtime/durable/resume_planner.py:88-96 | exactly the stale inflight steps become retryable failures; the new plan has no stale step, counts them as retryable, and keeps the other counters |
| ResumePlanning.OthersUntouched | cognitive_evolve_runtime/durable/resume_planner.py:88-105 | marking gives a stale inflight step the verb retry and leaves every other verb; only stale steps change, and by a transition the table allows |
| ResumePlanning.MarkingMovesCounts | cognitive_evolve_runtime/durable/resume_planner.py:52-105 | after marking no step is stale, the retry count has grown by exactly the stale count, and the other counts stand |
| ResumePlanning.MarkStaleIsIdempotent | cognitive_evolve_runtime/durable/resume_planner.py:88-96 | marking stale steps again changes nothing |
| WriteBehind.StepKeepsInv | cognitive_evolve_runtime/durable/async_writer.py:31-91 | each step of caller or worker keeps the flow of batches, the stop signal and the waiting states in order |
| WriteBehind.EveryRunKeepsInv | cognitive_evolve_runtime/durable/async_writer.py:31-91 | the same over every interleaving |
| WriteBehind.WrittenIsPrefix | cognitive_evolve_runtime/durable/async_writer.py:66-87 | in every reachable state the batches written are a prefix, in order, of the batches enqueued |
| WriteBehind.SyncMeansWritten | cognitive_evolve_runtime/durable/async_writer.py:45-57 | a flush or close that returns normally has every enqueued batch written |
| WriteBehind.NothingWrittenAfterFailure | cognitive_evolve_runtime/durable/async_writer.py:66-87 | after a recorded failure nothing is written in any continuation |
| WriteBehind.EveryLaterCallRaises | cognitive_evolve_runtime/durable/async_writer.py:31-57 | every operation that starts after a recorded failure raises, if it ends |
| WriteBehind.OperationsEndAsAsked | cognitive_evolve_runtime/durable/async_writer.py:31-57 | however the threads interleave: a plain batch is answered at once, a flush leaves the observer open with everything written, a close leaves it closed with the worker gone, and only a recorded failure makes them raise |
| WriteBehind.AcceptedCallIsUnder | cognitive_evolve_runtime/durable/async_writer.py:31-57 | an open observer takes a frozen batch as the operation its phase names, answers an empty update at once, and raises a failed freeze |
| WriteBehind.ClosedStaysClosed | cognitive_evolve_runtime/durable/async_writer.py:31-57 | a closed observer stays closed and enqueues nothing more |
| WriteBehind.AcceptedAreEnqueued | cognitive_evolve_runtime/durable/async_writer.py:31-43 | every accepted batch is enqueued once, in order |
| WriteBehind.FailureIsRecorded | cognitive_evolve_runtime/durable/async_writer.py:66-87 | a failing write is recorded for good, whatever follows |
| WriteBehind.WaitingMakesProgress | cognitive_evolve_runtime/durable/async_writer.py:45-57 | a waiting caller is let through, or the worker has a step to take |
| WriteBehind.WorkerStepsFinish | cognitive_evolve_runtime/durable/async_writer.py:66-87 | each worker step strictly lowers the work left |
| WriteBehind.WorkerRunsAreShort | cognitive_evolve_runtime/durable/async_writer.py:66-87 | no run of worker steps is longer than the work it does, so none goes on for ever |
| WriteBehind.WaitEnds | cognitive_evolve_runtime/durable/async_writer.py:45-87 | from every waiting state some run of worker steps, no longer than the work left, lets the caller through |
| WriteBehind.IdleWorkerLetsThrough | cognitive_evolve_runtime/durable/async_writer.py:45-57 | when the worker has no step left to take, the wait of the caller is over |
| Budget.LLMSession.Reserve | cognitive_evolve_runtime/llm/budget.py:22-52 | the critical section admits and reserves exactly as the admission function of the recorded events says |
| Budget.AdmittedIff | cognitive_evolve_runtime/llm/budget.py:38-54 | a call is admitted exactly when money is left and each priced event could happen once more on top of what is spent and reserved; it reserves the dearest of them |
| Budget.OnlyPricedEventsCount | cognitive_evolve_runtime/llm/budget.py:38-47 | replayed events and events without a cost add nothing; every other one adds its cost |
| Budget.LLMSession.Release | cognitive_evolve_runtime/llm/budget.py:53-65 | gives the reservation back, clamped at zero |
| Budget.EveryRunKeepsInv | cognitive_evolve_runtime/llm/budget.py:22-65 | locks, reservations and money stay consistent over every interleaving of any number of calls |
| Budget.SpendingIsBounded | cognitive_evolve_runtime/llm/budget.py:22-65 | recorded cost never exceeds the budget by more than the calls overran their own reservations |
| Budget.UnpricedCallIsAlone | cognitive_evolve_runtime/llm/budget.py:38-65 | a call admitted with no reservation is the only one in flight |
| Budget.ReservationsAreExact | cognitive_evolve_runtime/llm/budget.py:53-65 | the shared total is the sum of the outstanding reservations, and the clamp at zero never acts |
| Budget.WithinReservationsWithinBudget | cognitive_evolve_runtime/llm/budget.py:22-65 | if no call costs more than it reserved the budget is never exceeded |
| Governor.LimitsHoldAtEveryInstant | cognitive_evolve_runtime/llm/governor.py:64-84 | at every instant, the last minute holds at most rpm admissions, and at most tpm tokens unless it holds a single admission |
| Governor.WindowCountIs | cognitive_evolve_runtime/llm/governor.py:57-62 | the window counts the admissions later than 60 seconds before and not after the instant |
| Governor.AdmittedIff | cognitive_evolve_runtime/llm/governor.py:64-84 | a call is admitted exactly when, with it, the last minute still keeps both limits, or it is alone there as far as tokens go |
| Governor.WindowIsSuffix | cognitive_evolve_runtime/llm/governor.py:57-62 | what the pruned deques hold is what the whole history has in the last minute |
| Governor.ThrottledGovernor.PruneLocked | cognitive_evolve_runtime/llm/governor.py:57-62 | both deques end up holding exactly the last minute of the history |
| Governor.ThrottledGovernor.Attempt | cognitive_evolve_runtime/llm/governor.py:64-84 | one turn of the loop admits exactly when the decision over the whole history does; otherwise it asks for a wait between 0.05 and 60 seconds, after which the window is smaller |
| Governor.ThrottledGovernor.WaitNeeded | cognitive_evolve_runtime/llm/governor.py:70-84 | no wait exactly when both limits allow the request; otherwise the shortest of the waits that apply |
| Governor.WaitFreesTheOldest | cognitive_evolve_runtime/llm/governor.py:70-84 | the wait ends when the oldest entry has left the window, and unless it is the shortest wait nothing leaves before |
| Governor.ThrottledGovernor.Status | cognitive_evolve_runtime/llm/governor.py:40-55 | reports the admissions and tokens of the last minute of the history |
| ApiLimiter.NoMinuteExceedsLimit | cognitive_evolve_runtime/api/guards.py:146-164 | no closed minute of a legal history holds more than the limit |
| ApiLimiter.AdmittedIff | cognitive_evolve_runtime/api/guards.py:158-164 | a request is admitted exactly when, with it, the closed minute up to now still keeps the limit |
| ApiLimiter.DropStale | cognitive_evolve_runtime/api/guards.py:150-154 | dropping a bucket whose last entry is over a minute old loses nothing that any later decision needs |
| ApiLimiter.RecallIsExactIff | cognitive_evolve_runtime/api/guards.py:146-164 | the end of a history never counts more than all of it, and counts the same exactly when the rest is over a minute old |
| ApiLimiter.DecisionDiffersIff | cognitive_evolve_runtime/api/guards.py:146-164 | what is recalled decides otherwise than the whole history exactly when it is below the limit and the forgotten part of the last minute makes up the rest, and then it admits |
| ApiLimiter.ExactAgainAfterAMinute | cognitive_evolve_runtime/api/guards.py:146-164 | a minute after an eviction the recalled admissions decide as the whole history does |
| ApiLimiter.ForgottenKeyIsAdmitted | cognitive_evolve_runtime/api/guards.py:146-164 | a run with a limit of one that fills the table and evicts the first key, whose next request is admitted though its history is full |
| ApiLimiter.RateWindows.EvictStale | cognitive_evolve_runtime/api/guards.py:150-154 | keeps exactly the buckets whose last entry is at most a minute old |
| ApiLimiter.RateWindows.MakeRoom | cognitive_evolve_runtime/api/guards.py:155-157 | forgets nothing while there is room, else exactly one key, whose last admission is the oldest |
| ApiLimiter.RateWindows.EvictOldest | cognitive_evolve_runtime/api/guards.py:156-157 | the evicted bucket is one whose last admission is the oldest, and nothing else is forgotten |
| ApiLimiter.RateWindows.AllowRequest | cognitive_evolve_runtime/api/guards.py:146-164 | every decision is exactly that of the admissions since the key was last evicted for space; it is that of the whole history for a key never evicted so, and again for any key a minute after its eviction; every refusal is justified by the whole history; the new tables are those of the specified step, which evicts at most one key for space, the oldest |
| SweepLine.ActiveIsReflected | cognitive_evolve_runtime/llm/call_ledger.py:124-132 | the clamped running count is the plain prefix sum reflected at its lowest point so far |
| SweepLine.CountedCallsAre | cognitive_evolve_runtime/llm/call_ledger.py:120-124 | a call counts exactly when it has an end that is not before its start |
| SweepLine.OverlapIs | cognitive_evolve_runtime/llm/call_ledger.py:120-133 | the overlap at an instant is the number of calls that have started and not ended |
| SweepLine.MaxOverlap | cognitive_evolve_runtime/llm/call_ledger.py:120-133 | returns the number of completed calls and the peak of overlap plus drift, where drift is the error that zero-length calls cause; that peak is the true maximum exactly when the calls absorb every such error |
| SweepLine.StrictSweepIsExact | cognitive_evolve_runtime/llm/call_ledger.py:120-133 | when every call starts strictly before it ends the result is the maximum over all times of the calls in progress |
| SweepLine.StrictSweepNeverClamps | cognitive_evolve_runtime/llm/call_ledger.py:129-132 | and then the clamp at zero never acts |
| SweepLine.SweepIsExactIff | cognitive_evolve_runtime/llm/call_ledger.py:120-133 | the result never undercounts, and is the true maximum overlap if and only if, for every zero-length call and every start at or after it, the excess that call adds there is reached by the overlap at some start: a finite test on the calls alone |
| SweepLine.CoveredZeroLengthsAreExact | cognitive_evolve_runtime/llm/call_ledger.py:120-133 | it is exact when at every zero-length call the calls running over that instant outnumber or equal those that start and end there |
| SweepLine.ZeroLengthIsOvercounted | cognitive_evolve_runtime/llm/call_ledger.py:120-133 | a single zero-length call is counted although nothing overlaps |
| Evidence.AggregateEvidenceState | cognitive_evolve_runtime/evaluators/evidence_authority.py:73-150 | the loops compute the closed forms of final block, terminal rejection, parent block, rank, artifact, scores, confidence and challenges |
| Evidence.AggregateFinal | cognitive_evolve_runtime/evaluators/evidence_authority.py:91-130 | blocked exactly when some same-artifact authority blocks or revokes, or the latest record blocks and no same-artifact authority clears; the records that clear are collected in order |
| Evidence.AggregateTerminal | cognitive_evolve_runtime/evaluators/evidence_authority.py:91-130 | the last same-artifact authority revocation decides; without one, any same-artifact rejection does |
| Evidence.HighIff | cognitive_evolve_runtime/evaluators/evidence_authority.py:18-43 | exactly final, certificate and human review, with their aliases, can clear or block |
| Evidence.VerdictIff | cognitive_evolve_runtime/evaluators/evidence_authority.py:107-130 | the verdict in the records themselves: blocked exactly when a high authority revokes or blocks the latest artifact, or none clears it and the latest record blocks |
| Evidence.RejectionIff | cognitive_evolve_runtime/evaluators/evidence_authority.py:98-106 | the last revocation by a high authority about the latest artifact decides terminal rejection |
| Evidence.AuthoritiesAreOrdered | cognitive_evolve_runtime/evaluators/evidence_authority.py:18-43 | the order of the authorities and their aliases; an unknown text ranks as a probe |
| Evidence.OrderIsIrrelevant | cognitive_evolve_runtime/evaluators/evidence_authority.py:91-130 | permuting the earlier records does not change the verdict |
| Evidence.OtherArtifactsAreIrrelevant | cognitive_evolve_runtime/evaluators/evidence_authority.py:91-130 | records about other artifacts can be deleted without changing the verdict |
| Evidence.NewArtifactStartsOver | cognitive_evolve_runtime/evaluators/evidence_authority.py:91-130 | a record about a new artifact is judged by itself alone |
| Evidence.LowerAuthorityCannotDowngrade | cognitive_evolve_runtime/evaluators/evidence_authority.py:91-130 | a lower authority about the same artifact cannot turn a certificate into a block |
| Evidence.BlockPersists | cognitive_evolve_runtime/evaluators/evidence_authority.py:91-130 | an authority's block stays under every later append about the same artifact |
| Evidence.LatestRevocationDecides | cognitive_evolve_runtime/evaluators/evidence_authority.py:91-130 | a latest revocation by authority alone decides terminal rejection |
| Evidence.HighestIsMax | cognitive_evolve_runtime/evaluators/evidence_authority.py:133-145 | each reported score is the largest of the bounded scores: attained by a record and exceeded by none |
| Evidence.FinalScoreIsCleared | cognitive_evolve_runtime/evaluators/evidence_authority.py:120-135 | a positive final score needs a same-artifact authority that clears, and is at least what every such authority gives |
| Evidence.VerifiedOnlyByAuthority | cognitive_evolve_runtime/evaluators/evidence.py:235-247 | a candidate scores as finally verified only if no same-artifact authority blocks it and one cleared it |
| Evidence.GatheredAreNamed | cognitive_evolve_runtime/evaluators/evidence_authority.py:192-198 | the challenge lists hold exactly the nonempty ids named by some record, each once |
| Evidence.ResolutionIff | cognitive_evolve_runtime/evaluators/evidence_authority.py:131-131 | with targets the resolution is the share of them that are resolved: 1 exactly when every target is, and 0 exactly when none is |
| Evidence.ResolutionWithoutTargets | cognitive_evolve_runtime/evaluators/evidence_authority.py:131-131 | without targets the resolution is what is resolved per emitted challenge, at most one |
| Evidence.DedupeRecords | cognitive_evolve_runtime/evaluators/evidence.py:503-512 | the loop with its set of seen keys computes the specified list, which has the keys of the input |
| Evidence.DedupeKeepsFirsts | cognitive_evolve_runtime/evaluators/evidence.py:503-512 | the result lists, in input order, exactly the records no earlier one of which has the same key |
| Evidence.Candidate.ApplyEvidenceRecord | cognitive_evolve_runtime/evaluators/evidence.py:218-248 | the stored list is the deduplicated append; state, challenges and terminal flag are those of the stored list; three scores come from the record applied, so a known record leaves everything but those, and those exactly when it repeats them |
| Evidence.ReapplyingKeepsRecords | cognitive_evolve_runtime/evaluators/evidence.py:218-229 | applying a record again leaves the stored list as it is |
| Evidence.RecordIsStoredIff | cognitive_evolve_runtime/evaluators/evidence.py:218-229 | a record is stored, last, exactly when its key is new, whatever its verdict |
| Evidence.DescriptionIsUnique | cognitive_evolve_runtime/evaluators/evidence_authority.py:73-150 | the records determine every field of the state |
| Evidence.ScoresStandIff | cognitive_evolve_runtime/evaluators/evidence.py:236-248 | with the state unchanged, applying a record leaves the scores alone exactly when it repeats the three heads it sets |
| Evidence.HeadsOfRecord | cognitive_evolve_runtime/evaluators/evidence.py:243-246 | the three heads a record sets are its own signals, else what was there, else a stock value |
| Evidence.OldRecordRewritesScores | cognitive_evolve_runtime/evaluators/evidence.py:243-246 | a stored record applied again after a newer one leaves the list alone and takes the evaluator score back to its own |
| PatchMerge.MergePatchSets | cognitive_evolve_runtime/candidates/patch_merge.py:45-80 | the loop with its path index computes the specified merged list and conflicts; which operations these are is said below in terms of the operations alone |
| PatchMerge.MergedIsSubsequence | cognitive_evolve_runtime/candidates/patch_merge.py:45-80 | the merged list is a subsequence of left followed by right |
| PatchMerge.EveryOperationIsAccounted | cognitive_evolve_runtime/candidates/patch_merge.py:45-80 | kept, reported and dropped operations are together all operations, with multiplicity |
| PatchMerge.DroppedAndReportedAgainstFirst | cognitive_evolve_runtime/candidates/patch_merge.py:58-78 | what is dropped equals the first operation on its path; what conflicts is incompatible with it and reported against it |
| PatchMerge.ConflictsAreTheClashes | cognitive_evolve_runtime/candidates/patch_merge.py:58-78 | an operation is reported exactly when it differs from the first one on its path, they are not both appends, and they are not two replaces of different texts |
| PatchMerge.AppendsAllStay | cognitive_evolve_runtime/candidates/patch_merge.py:58-68 | where all operations on a path are appends the merge keeps them all, in order, and reports no conflict there |
| PatchMerge.KeptShape | cognitive_evolve_runtime/candidates/patch_merge.py:186-196 | per path the first operation is kept, and after it only appends to an append or replaces of another text than the first |
| PatchMerge.LaterReplacesMayClash | cognitive_evolve_runtime/candidates/patch_merge.py:186-196 | compatibility looks at the first operation only: two later replaces of the same text are both kept |
| PatchMerge.KeptReplacesClashIff | cognitive_evolve_runtime/candidates/patch_merge.py:186-196 | on a path that starts with a replace, the kept replaces have pairwise different texts exactly when the replaces of other texts than the first do |
| PatchMerge.MergeIsIdempotent | cognitive_evolve_runtime/candidates/patch_merge.py:45-80 | merging the result with nothing returns it unchanged and clean |
| PatchMerge.MergeKeepsMeaningIff | cognitive_evolve_runtime/candidates/patch_merge.py:45-80 | for a clean merge: merging has the effect of all operations in sequence, at every prefix, if and only if every dropped replace would have changed nothing where it stands |
| PatchMerge.ReplaceIsNeutralIff | cognitive_evolve_runtime/tools/patch_sandbox.py:222-231 | a replace changes nothing exactly when its two texts are equal, the file is absent, or the old text is not in it |
| PatchMerge.ReplaceAllIsNeutralIff | cognitive_evolve_runtime/tools/patch_sandbox.py:228-230 | replacing every occurrence leaves a text as it is exactly when the two texts are equal or the old one does not occur |
| PatchMerge.MergeKeepsMeaning | cognitive_evolve_runtime/candidates/patch_merge.py:45-80 | a clean merge whose dropped replaces are harmless has the effect on the files of all operations in sequence |
| PatchMerge.ReplaceFreeMergeKeepsMeaning | cognitive_evolve_runtime/candidates/patch_merge.py:45-80 | for clean replace-free inputs applying the merge gives the same files as applying left and then right |
| PatchMerge.SharedReplaceIff | cognitive_evolve_runtime/candidates/patch_merge.py:45-80 | a replace given by both sides is applied once, which gives the same files exactly when a second application would change nothing |
| PatchMerge.DroppedReplaceChangesMeaning | cognitive_evolve_runtime/candidates/patch_merge.py:45-80 | a replace that doubles a text, given by both sides: merged and in sequence the files differ |
| ParetoFrontier.BeatsIsAStrictOrder | cognitive_evolve_runtime/archives/quality_diversity.py:412-413 | dominance is irreflexive and transitive for any number of axes |
| ParetoFrontier.DominatesIff | cognitive_evolve_runtime/archives/quality_diversity.py:412-413 | dominance means nowhere lower and not equal |
| ParetoFrontier.AxesAre | cognitive_evolve_runtime/archives/quality_diversity.py:400-409 | the axes are the best progress, the mean quality and the diversity, each within [0, 1] |
| ParetoFrontier.ParetoFrontierIds | cognitive_evolve_runtime/archives/quality_diversity.py:114-140 | the nested loops collect exactly the ids no other vector dominates |
| ParetoFrontier.SomeUndominatedBeats | cognitive_evolve_runtime/archives/quality_diversity.py:114-140 | above every dominated candidate there is an undominated one that dominates it |
| ParetoFrontier.FrontierCovers | cognitive_evolve_runtime/archives/quality_diversity.py:114-140 | for distinct ids: nonempty, no member dominates another, every excluded candidate is dominated by some member |
| Survivors.EntropyDiversitySurvivors | cognitive_evolve_runtime/archives/quality_diversity.py:143-212 | survivors and compacted partition the population; they start with the elites of every bin and the rare reserves that fit, and each later one has the largest gain, then quality, search quality and id, among the unchosen; a compacted candidate leaves a full reserve of its bin behind that is no worse in quality, search quality and id; the size is exactly max(target, sum over bins of min(reserve, bin size)) |
| Survivors.ChooseElites | cognitive_evolve_runtime/archives/quality_diversity.py:165-169 | the reserve of every bin, best first, bin by bin |
| Survivors.ChooseRare | cognitive_evolve_runtime/archives/quality_diversity.py:171-185 | appends the unchosen rare candidates of every bin, rarest first, up to the reserve and the room left |
| Survivors.FillUp | cognitive_evolve_runtime/archives/quality_diversity.py:202-209 | the loop ends at the target, and every pick scored best among the unchosen when it was made |
| Survivors.BinsAreKept | cognitive_evolve_runtime/archives/quality_diversity.py:165-169 | whoever is compacted leaves a full reserve of different survivors of its bin behind, each at least as good in quality, then search quality, then id |
| Survivors.RareStageKeepsTheRarest | cognitive_evolve_runtime/archives/quality_diversity.py:171-185 | unless the room is used up, a compacted rare candidate leaves a full reserve of rare survivors of its bin behind, beside the elites, each at least as rare |
| Survivors.HeadIsBest | cognitive_evolve_runtime/archives/quality_diversity.py:165-169 | the first of a sorted bin is at least as good as every member |
| Survivors.DeriveTarget | cognitive_evolve_runtime/archives/quality_diversity.py:232-241 | the wrapper's counting loops give the specified target, between the number of bins and the population size |
| Survivors.TargetIsInRange | cognitive_evolve_runtime/archives/quality_diversity.py:232-241 | the target lies between the number of bins and the population size |
| Survivors.QualityDiversitySurvivors | cognitive_evolve_runtime/archives/quality_diversity.py:215-242 | the wrapper's survivors for the derived target; a compacted candidate leaves a full reserve of its bin behind that is no worse; with one elite reserved per bin their number is exactly the target |
| LatentArchive.SortedIsUnique | cognitive_evolve_runtime/archives/latent_pareto.py:165-184 | a bucket has only one order by the representative key |
| LatentArchive.IndexIsUnique | cognitive_evolve_runtime/archives/latent_pareto.py:165-184 | two exact indexes of the same stored candidates are equal |
| LatentArchive.LatentLane.RebuildIntentBuckets | cognitive_evolve_runtime/archives/latent_pareto.py:165-184 | the gathering and sorting loops give the exact index |
| LatentArchive.BucketIsBestFirst | cognitive_evolve_runtime/archives/latent_pareto.py:180-184 | a bucket lists candidates with a larger intent score first, then by reproduction, quality, round and id |
| LatentArchive.TextLeqIff | cognitive_evolve_runtime/archives/latent_pareto.py:180-184 | ids are compared as texts: a prefix, or smaller where they first differ |
| LatentArchive.LatentLane.Discard | cognitive_evolve_runtime/archives/latent_pareto.py:55-66 | removes one id from all four dictionaries, records it if it was there, and leaves the index exact |
| LatentArchive.LatentLane.Prune | cognitive_evolve_runtime/archives/latent_pareto.py:68-86 | removes exactly the terminal, non-frontier and stale candidates, each once and recorded with its own reason; the rest is untouched and the index exact |
| LatentArchive.StaleIff | cognitive_evolve_runtime/archives/latent_pareto.py:68-86 | which candidates a pass removes and the reason given for each |
| LatentArchive.LatentLane.EnforceIntentQuotas | cognitive_evolve_runtime/archives/latent_pareto.py:186-194 | keeps exactly the candidates in the top quota of some bucket, records every other one, and leaves the index exact; each removed one is outranked by a full quota of kept ones for every intent it lists |
| LatentArchive.RemovedIsOutranked | cognitive_evolve_runtime/archives/latent_pareto.py:180-194 | whoever is removed has, for every intent it lists, a quota of kept candidates at least as good in intent score, then reproduction, quality, round and id |
| LatentArchive.KeptHasAPlace | cognitive_evolve_runtime/archives/latent_pareto.py:180-194 | whoever is kept has an intent with fewer than a quota of better candidates |
| LatentArchive.LatentLane.Add | cognitive_evolve_runtime/archives/latent_pareto.py:31-53 | prune, store, rebuild, enforce: afterwards the stored ids are exactly those in the top quota of some bucket and number at most quota times the intents; each one removed is outranked by a full quota of kept ones for every intent it lists; the candidate keeps the round it first came in, and every other observation stands |
| LatentArchive.LatentLane.RecordRemoval | cognitive_evolve_runtime/archives/latent_pareto.py:203-208 | counter, per-reason counters and the log of at most fifty stay equal to what the full removal history gives |
| LatentArchive.LogIsTheEnd | cognitive_evolve_runtime/archives/latent_pareto.py:203-208 | the log is the end of the history, at most fifty records |
| LatentArchive.CountersAddUp | cognitive_evolve_runtime/archives/latent_pareto.py:203-208 | the removal total is the sum of the per-reason counters |
| LatentArchive.TopSurvives | cognitive_evolve_runtime/archives/latent_pareto.py:186-194 | the top quota of every bucket survives and stays the top of its bucket |
| LatentArchive.EnforcementIsFixpoint | cognitive_evolve_runtime/archives/latent_pareto.py:186-194 | enforcing again would remove nothing, and no bucket appears or disappears |
| LatentArchive.SizeIsBounded | cognitive_evolve_runtime/archives/latent_pareto.py:186-194 | what is in the top quota of some intent numbers at most quota times the intents |
| LatentArchive.DiscardKeepsExact | cognitive_evolve_runtime/archives/latent_pareto.py:55-66 | filtering an id out of every bucket gives the index a rebuild would give |
| LatentArchive.BucketsMayExceedQuota | cognitive_evolve_runtime/archives/latent_pareto.py:186-194 | a single bucket may stay over the quota after enforcement |
| LatentArchive.BucketExceedsQuotaIff | cognitive_evolve_runtime/archives/latent_pareto.py:186-194 | a bucket stays over the quota after enforcement exactly when one of its candidates beyond the quota is kept for another intent |
| ArchiveLanes.EveryRunIsConsistent | cognitive_evolve_runtime/archives/manager.py:99-117 | over every run from empty archives: tombstones are exactly the ids with a Culled or Failed fate, all in the failure archive; answer, auxiliary and dormant ids have the matching fate; failed ids are in no other lane; constraint ids are unique and never lost; the seeds are the first occurrences over the rare candidates |
| ArchiveLanes.ConsistentMeans | cognitive_evolve_runtime/archives/manager.py:99-117 | the same invariant in terms of whole lanes: which are disjoint and which contain which |
| ArchiveLanes.AssignedCandidateStands | cognitive_evolve_runtime/archives/registry.py:25-77 | an assigned candidate ends up in failure, answer, auxiliary or dormant exactly as its fate and source binding say |
| ArchiveLanes.FailureIff | cognitive_evolve_runtime/archives/registry.py:34-37 | failures are exactly the culled, the failed and the negative-only candidates, tombstones only the first two; answers exactly the elite ones that are neither blocked nor negative-only |
| ArchiveLanes.FailureHasSignature | cognitive_evolve_runtime/archives/registry.py:34-37 | a failure is recorded under the signature it was given, or under another nonempty one |
| ArchiveLanes.ParkedWithCondition | cognitive_evolve_runtime/archives/registry.py:73-75 | a parked candidate waits for the condition it was given, or for the stock one |
| ArchiveLanes.NicheAfter | cognitive_evolve_runtime/archives/quality_diversity.py:271-283 | a live candidate takes each niche it names unless another holds it with a better score; other niches stay as they are |
| ArchiveLanes.MechanismAfter | cognitive_evolve_runtime/archives/registry.py:52-58 | a mechanism goes to a live candidate only for strictly better quality than that of another holder |
| ArchiveLanes.ReportTellsTheLanes | cognitive_evolve_runtime/archives/registry.py:25-77 | the reported targets tell the lanes: the candidate is in every reported lane and in no unreported one, except that it may lose a niche or a place in the latent lane |
| ArchiveLanes.ReportKeepsWhatWasGiven | cognitive_evolve_runtime/archives/manager.py:105-105 | a report keeps the given targets and the given gene summary |
| ArchiveLanes.OthersStand | cognitive_evolve_runtime/archives/registry.py:25-123 | an assignment to one candidate never moves another, except that it may lose a live lane |
| ArchiveLanes.AssignmentKeepsConsistent | cognitive_evolve_runtime/archives/manager.py:99-117 | one assignment keeps the lanes consistent |
| ArchiveLanes.ReactivationKeepsConsistent | cognitive_evolve_runtime/archives/manager.py:215-232 | one reactivation keeps the lanes consistent |
| ArchiveLanes.ConstraintsAreUnique | cognitive_evolve_runtime/archives/manager.py:397-405 | appending constraints keeps the old ones in place, adds every new id, and repeats none |
| ArchiveLanes.PutKeepsSeeds | cognitive_evolve_runtime/archives/registry.py:117-123 | extending the seeds while adding gives the same list as rebuilding them from all rare candidates |
| ArchiveLanes.AnyoneComesBackIff | cognitive_evolve_runtime/archives/manager.py:221-228 | asking for any candidate brings back the first parked one that no freeze on record holds, and none exactly when all are held |
| ArchiveLanes.ReactivationIff | cognitive_evolve_runtime/archives/manager.py:215-220 | a named candidate comes back exactly when it is parked and it brings new evidence, is not structurally blocked, or no freeze on record names its target |
| ArchiveLanes.ComesBackIff | cognitive_evolve_runtime/archives/manager.py:215-220 | a parked candidate asked for by name comes back exactly when no freeze on record holds it |
| ArchiveLanes.RefusedComesBackIff | cognitive_evolve_runtime/archives/manager.py:215-228 | for every request: a candidate the check refuses comes back if and only if the request is the empty id and the first parked candidate is a refused one |
| ArchiveLanes.EmptyIdSkipsTheFreeze | cognitive_evolve_runtime/archives/dormant.py:20-28 | a run from empty archives, one rejection and one parking, after which the empty id brings back a refused candidate |
| ArchiveLanes.RejectionFreezesLineage | cognitive_evolve_runtime/archives/manager.py:366-385 | a rejected, structurally blocked candidate with a lesson and no new evidence freezes its lineage |
| ArchiveLanes.FreezeIff | cognitive_evolve_runtime/archives/manager.py:366-405 | an assignment freezes a lineage exactly when it rejects a structurally blocked member of it that brought lessons or a failure signature and no new evidence |
| ArchiveLanes.LessonsAreRecorded | cognitive_evolve_runtime/archives/manager.py:386-396 | every lesson of an assigned candidate is on record as a rule for its lineage |
| ArchiveLanes.FrozenStaysFrozen | cognitive_evolve_runtime/archives/manager.py:415-428 | in every later state of a run the check refuses blocked candidates of that lineage that bring no new evidence |
| ArchiveManagement.ArchiveManager.RemoveCandidateFromArchives | cognitive_evolve_runtime/archives/registry.py:79-94 | removes every membership of an id and rebuilds the seeds |
| ArchiveManagement.ArchiveManager.RebuildRaritySeeds | cognitive_evolve_runtime/archives/registry.py:117-123 | the nested loops list the first occurrences of all seeds of the rare candidates |
| ArchiveManagement.ArchiveManager.RouteCandidate | cognitive_evolve_runtime/archives/registry.py:25-77 | the new lanes are those of the routing function, the latent lane gains at most the candidate, and the reported targets are those of the lanes it started from |
| ArchiveManagement.ArchiveManager.RecordConstraints | cognitive_evolve_runtime/archives/manager.py:366-405 | the loop appends the constraints of the candidate that are new |
| ArchiveManagement.ArchiveManager.LeaveLatentLane | cognitive_evolve_runtime/archives/manager.py:108-110 | a candidate that no longer qualifies leaves the latent lane with its reason recorded |
| ArchiveManagement.LeavesIff | cognitive_evolve_runtime/archives/latent_pareto.py:213-218 | a candidate leaves the latent lane for a terminal fate, or when it is off the frontier |
| ArchiveManagement.ArchiveManager.Update | cognitive_evolve_runtime/archives/manager.py:74-117 | applies the assignments of known candidates in order, as a run of consistent lanes; returns one report for each, with its targets and gene summary, and appends them to the history |
| ArchiveManagement.IndexIsLast | cognitive_evolve_runtime/archives/manager.py:91-97 | an assignment is applied to the last candidate given under its id |
| ArchiveManagement.ArchiveManager.ReactivateDormant | cognitive_evolve_runtime/archives/manager.py:215-232 | takes the chosen candidate out of every lane, marks it active, and keeps the lanes consistent; somebody comes back exactly when a candidate that no freeze holds is parked under the name, or at all |
| ArchiveManagement.LastAssignmentDecides | cognitive_evolve_runtime/archives/manager.py:99-117 | after an update every id has the fate of its last applied assignment, or the one it had |

## Left out

- DictMoves.ExecuteDictMove: artifacts are immutable trees, so update in place and sharing between parts of one artifact are not captured; the original copies the parent first and keeps sharing inside the copy.
- DictMoves.ParseIsInjective: white space is what the ASCII rules strip, and keys are text only.
- JsonConversion.JsonReady: objects with their own `to_dict`, sets and keys that are not text are not modelled; the marker is a constructor, so a document that contains the marker text as data is not confused with it.
- JsonConversion.GuardedWriteIsFaithful: only for graphs without dataclass records, because the guard does not follow their fields.
- PatchMerge.MergeKeepsMeaningIff: the equivalence is about the effect at every prefix of the operations; a later replace on the same path may hide a difference at the end.
- PatchMerge.ReplaceFreeMergeKeepsMeaning: unified-diff patches and the crossover record are not modelled.
- DurableSteps.RunStep: one runner per step at a time; a crash inside an atomic write is a crash before or after it; the event log and timestamps are not modelled.
- Budget.SpendingIsBounded: costs are recorded inside the reservation and are not negative; stage budgets, clearing the session during calls, deduplication of physical calls and rounding are not modelled.
- Governor.ThrottledGovernor.Attempt: one turn of the retry loop at a time; sleeping, the concurrency semaphore and changes of the limits at run time are not modelled.
- ApiLimiter.RateWindows.AllowRequest: the clock does not go back, and a limit of 0, which switches the guard off earlier, is not modelled.
- WriteBehind.WaitEnds: that the worker thread is scheduled, and that each write returns or fails, is taken for granted; telemetry counters are not modelled.
- Evidence.AggregateEvidenceState: scores are reals without rounding; the source and stage labels of the state, and the computation of an artifact hash from its content, are not modelled; challenge ids are already stripped.
- Evidence.Candidate.ApplyEvidenceRecord: the migration of old records is not modelled; records carry a candidate id, and scores and confidences that lie in [0, 1], so that storing and reading them back changes nothing.
- Survivors.EntropyDiversitySurvivors: the entropy and weight formula is an arbitrary gain function, ids are numbers in their sort order, and the order of the bins is an arbitrary listing instead of the alphabetical one.
- LatentArchive.LatentLane.Add: the intents are already resolved and not empty, and the copy of the observation kept inside the stored candidate is not modelled.
- LatentArchive.LatentLane.Prune: archives loaded from stored data, whose fields may be missing, are not modelled.
- ArchiveManagement.ArchiveManager.Update: timestamps of the history, the binding class in the text of a refused target, and the `covered_by` note are not modelled; the source-binding verdict of a candidate is part of it; candidates have an id.
- ArchiveManagement.ArchiveManager.ReactivateDormant: archives loaded from stored data may hold verification constraints, which the code never records itself.
- ArchiveLanes.EveryRunIsConsistent: the descriptor cell elites are not cleaned by the original and are excluded.
- Fate assignment by policy, archive directives, summaries and loading.
- Patch, proof and restart moves, and the invariants a move may declare.
- Real files, locks and fsync; HTTP, providers, subprocesses, the command line and configuration.
