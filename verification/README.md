# Verified model of the macro runtime

A Dafny model of the parts of the runtime whose behaviour is hardest to see from the code, with
proofs of what they guarantee. `dafny verify dfyconfig.toml` checks everything.

- **Macro validation** (`Graph`, `Macro`): the reference scan, the checks of a batched macro request,
  and Kahn's loop with a sorted frontier, proved against a definition without in-degrees or frontier.
- **The executor** (`Scheduler`, `SchedulerSafety`, `SchedulerRuns`, `SchedulerProgress`,
  `BranchOutcomes`, `ExecutorLaws`, `CircularWaits`, `Deadlocks`, `ValidatedRuns`): one program counter per step over shared maps; an event is the
  code between two awaits of one task, a deadline, a crash or a resume. Tool results, retryability,
  condition values and pointer ids are supplied by the events, so a theorem about every run is about
  every interleaving and every environment.
- **The workflow compiler** (`Workflow`).
- **The lease coordinator** (`Coordinator`, `CoordinatorRuns`, `CoordinatorTheorems`, `CoordinatorLaws`): two tables in a
  class whose methods are proved equal to transitions, and invariants over every run of transitions.
  Clock readings, lease ids and expiry times are parameters.
- **Rate limits** (`TokenBucket`, `Guardrails`): real-valued time.
- **Pointer stores** (`Decimal`, `Timestamps`, `PointerTable`, `PointerStores`, `StoreAgreement`, `StoreLaws`): two
  backends as classes that refine one map, with timestamps as the text the stores hold.
- **Branch expressions** (`SafeEval`, `Evaluation`, `ExpressionLaws`, `ComparisonLaws`, `Evaluator`).
- **MCP framing** (`Framing`, `McpClient`, `McpSessions`): read loops over a stream that arrives in arbitrary
  pieces, and whole sessions of requests. The polls before a deadline are a list that says which found bytes.

`Wrappers`, `Text` and `Sorting` hold what the others share.

## Where the code falls short of a promise

Each item names the lemmas that show it.

- A bare `$step:` argument adds no edge to the graph the validator checks
  (eap/protocol/models.py:477-482), but the executor awaits the step with the empty id
  (eap/environment/executor.py:399-407). `ValidatedRuns.WaitsFollowIff` says exactly when every wait follows
  a checked edge. Without a cycle of waits every execution settles (`CircularWaits.AcyclicWaitsFinish`);
  steps that begin by waiting for each other block every run (`Deadlocks.SelfBlockingNeverSettles`, of which
  the accepted macro of `ValidatedRuns.BareReferenceDeadlocks` is an instance); and for macros without
  branching or approvals an execution in which tools return settles if and only if the waits have no cycle
  (`Deadlocks.SettlesIffAcyclic`).
- The coordinator reads dependencies from whole top-level arguments that begin with `$step:` and takes every
  occurrence of that prefix out (eap/environment/distributed_executor.py:88-96); the validator also sees `$a`
  and nested values, and keeps later occurrences (eap/protocol/models.py:472-506). `CoordinatorLaws.DependenciesIff`
  says what the coordinator sees, `CoordinatorLaws.NamesAgreeIff` when both name the same step, and
  `CoordinatorLaws.NestedPrefixDiffers` is an argument for which they do not.
- The Redis index lives under the key a pointer with id `ids` would have
  (eap/protocol/storage/redis_store.py:34-39), so deleting that id drops the index and reports success;
  and storing an existing id overwrites in Redis and fails in SQLite. `StoreAgreement.StoreAgreesIff`,
  `RetrieveAgreesIff` and `DeleteAgreesIff` give the exact conditions.
- A request that times out inside a frame leaves the stream there. The next read is right if and only if
  nothing of the frame had been taken (`Framing.TimeOutHarmlessIff`, `Framing.ReadsRightIffNothingTaken`); after
  a header it can even take the body for a frame (`Framing.CutAfterHeaderMisreads`). A stream that ends
  inside the header of an empty payload is read as that payload (`Framing.TruncatedFrame`, both directions).
- The retry time of a denied call is floored at a millisecond, and it is a promise about the state left
  by the denied call: another caller may take the place in between (`Guardrails.RetryTimeIsRight`).
- Pushing a negation inward costs two nodes per operand (`ExpressionLaws.DeMorganSize`), so De Morgan's
  laws keep the value of every expression but can lift it over the 256-node limit.

## Model

| member | source | states |
|---|---|---|
| Graph.Kahn | eap/protocol/models.py:546-558 | The in-degree loop with a sorted frontier computes the greedy order: repeatedly the least node without remaining predecessors. |
| Graph.BuildGraph | eap/protocol/models.py:701-706 | Adjacency and in-degrees are those of the set of edges; duplicates count once. |
| Graph.GreedyCompleteIffAcyclic | eap/protocol/models.py:546-558 | The order reaches every node if and only if the graph has no directed cycle, and is then topological. |
| Graph.StuckHasCycle | eap/protocol/models.py:546-558 | Nodes left over, each with a predecessor left over, contain a cycle (walked backwards, by pigeonhole). |
| Graph.GreedyIsLeast | eap/protocol/models.py:728-751 | The greedy order is the lexicographically least order that respects the edges. |
| Macro.Extract | eap/protocol/models.py:472-506 | Fails exactly when the value is nested beyond the limit; otherwise returns exactly the step references of its strings. |
| Macro.TextReferencesIff | eap/protocol/models.py:472-490 | A string refers to a step exactly when it is `$step:` or `$`, the step's id, and maybe a dotted path. |
| Macro.FindReferences | eap/protocol/models.py:508-510 | Left-to-right non-overlapping matching finds the name after every occurrence of the prefix; skipping a match loses none. |
| Macro.CheckTargets | eap/protocol/models.py:436-455 | Accepts exactly when every branch target is another step of the macro. |
| Macro.CheckApprovals | eap/protocol/models.py:456-468 | Accepts exactly when every approval names a step that requires one. |
| Macro.BuildDependencies | eap/protocol/models.py:512-544 | The graph built step by step is that of argument references, condition references without the step itself, and branch targets. |
| Macro.DependencyGraphIff | eap/protocol/models.py:512-544 | An edge joins two steps exactly when the target mentions the source in an argument or its condition, or the source may branch to the target. |
| Macro.CheckAcyclic | eap/protocol/models.py:512-558 | Raises the cycle error if and only if that graph has a directed cycle. |
| Macro.Validate | eap/protocol/models.py:436-470 | Accepts exactly the admissible macros; the cycle, depth and duplicate-id errors are each raised exactly in their case. |
| SchedulerSafety.StepKeepsInv | eap/environment/executor.py:532-999 | Every event keeps the invariant: futures, statuses and pointers agree, slots add up, waiting tasks have what their place requires, checkpoints hold published outcomes only. |
| SchedulerSafety.TaskKeepsInv | eap/environment/executor.py:532-931 | A task's step keeps the invariant and changes nothing another task relies on. |
| SchedulerSafety.TimeOutInv | eap/environment/executor.py:933-999 | The deadline marks only steps without a status; the invariant and everything published survive. |
| SchedulerSafety.LaunchInv | eap/environment/executor.py:223-260 | The state built from any checkpoint satisfies the invariant. |
| SchedulerRuns.RunInv | eap/environment/executor.py:107-183 | The invariant holds in every state of every run, across crashes and resumes. |
| SchedulerRuns.CallsAreJustified | eap/environment/executor.py:567-734 | When a tool is called, every step it references has published `ok`, a controller selected it if it is a branch target, it was approved if it must be, and it has no outcome yet. |
| SchedulerRuns.ConcurrencyBounded | eap/environment/executor.py:747-850 | Never more tool calls at once than the global limit, nor of one tool than its own limit. |
| SchedulerRuns.PublishedIsFinal | eap/environment/executor.py:356-384 | Within an execution, published statuses, pointers and branch decisions never change. |
| SchedulerRuns.PersistedForever | eap/environment/executor.py:539-553 | Across any chain of crashes and resumes a persisted outcome stays as it is and its tool is never called again. |
| SchedulerRuns.CompletedIsFinal | eap/environment/executor.py:1089-1111 | A completed checkpoint admits nothing but the end of the process. |
| SchedulerRuns.CompletedCoversAll | eap/environment/executor.py:1041-1052 | A completed checkpoint holds a final outcome for every step. |
| BranchOutcomes.OutcomesAreRight | eap/environment/executor.py:567-931 | Every outcome is published with the status, pointer, branch decision and early exit that what happened calls for. |
| BranchOutcomes.DecisionsAreRight | eap/environment/executor.py:356-376 | A target is selected if and only if it is on the side the condition took, or on the fallback list of a failure or refusal; a skip or a pause selects none. |
| BranchOutcomes.GateIsRight | eap/environment/executor.py:567-734 | A step is let through exactly when it is selected or uncontrolled, no early exit was raised, and it is approved if it must be; otherwise it is skipped, paused or rejected accordingly. |
| BranchOutcomes.DecisionsTraced | eap/environment/executor.py:135-148 | In every run each recorded selection, persisted ones included, goes back to an event that is a reason for it. |
| BranchOutcomes.BranchTargetsWereSelected | eap/environment/executor.py:356-376 | When a branch target's tool is called, some step that lists it earlier ended for a reason that selects it. |
| ExecutorLaws.CallsFollowReferences | eap/environment/executor.py:394-460 | When a tool is called, every step its arguments refer to, as the validator reads them, has published `ok`. |
| ExecutorLaws.RetriesExactly | eap/environment/executor.py:810-843 | A failed call is tried again exactly when its error is retryable and attempts remain. |
| ExecutorLaws.CallsCounted | eap/environment/executor.py:744-850 | In one execution attempts count the calls of a tool, and there are never more than the policy allows. |
| ExecutorLaws.FinishedIsOnRecord | eap/environment/executor.py:242-260 | In every run a finished step's outcome is persisted: a crash loses unfinished work only. |
| ExecutorLaws.TimeOutExactly | eap/environment/executor.py:933-999 | The deadline makes errors of exactly the steps without a status and persists everything. |
| ExecutorLaws.CompleteExactly | eap/environment/executor.py:1041-1046 | The final checkpoint awaits approval exactly when a step is paused, and is completed otherwise. |
| ExecutorLaws.ResumeExactly | eap/environment/executor.py:1089-1111 | A resume starts from what was persisted, with new approvals over old ones, and replays every step but the paused. |
| ExecutorLaws.ApprovedStepRuns | eap/environment/executor.py:539-553 | A paused step that is now approved goes on to its arguments. |
| SchedulerProgress.NoDeadlock | eap/environment/executor.py:394-460 | In every reachable unfinished state, if waits follow the edges of an acyclic graph, some task can move or the run can complete, without the deadline. |
| SchedulerProgress.ProgramOrder | eap/environment/executor.py:736-850 | Each task resolves references before taking slots, the global slot before the tool's, both before the call. |
| SchedulerProgress.ExecutionShrinks | eap/environment/executor.py:747-850 | Every event of an execution lowers a measure of the work left, retries included. |
| SchedulerProgress.EveryExecutionFinishes | eap/environment/executor.py:970-999 | Every interleaving is finite, within a bound that depends on the macro alone, and one that cannot go on is settled. |
| CircularWaits.AcyclicWaitsFinish | eap/environment/executor.py:394-460 | If the graph of waits has no cycle, every execution is finite and settles. |
| CircularWaits.CircularReferencesNeverRun | eap/environment/executor.py:394-423 | In no run does a step of a circle of references succeed or have its tool called. |
| ValidatedRuns.WaitsFollowIff | eap/protocol/models.py:472-544 | All waits of the executor follow edges the validator checked exactly when no bare reference awaits an empty step id unseen. |
| ValidatedRuns.CheckedWaitsAcyclic | eap/protocol/models.py:512-558 | For an accepted macro without such a wait, the executor's wait graph has no cycle. |
| ValidatedRuns.AcceptedMacrosFinish | eap/protocol/models.py:512-558 | The validator's acyclicity makes every interleaving of the executor finish with all futures resolved. |
| Deadlocks.SelfBlockingNeverSettles | eap/environment/executor.py:394-412 | Without deadline and early exit, in every run across crashes and resumes, no member of a group of steps whose first wait is for a member is ever published or persisted, and no execution is ever done. |
| Deadlocks.CyclicNeverSettles | eap/environment/executor.py:394-460 | In a macro without branching or approvals whose waits have a cycle, no execution in which tools return ever settles. |
| Deadlocks.StoppedExecutionExists | eap/environment/executor.py:970-999 | Every macro without a deadline has an execution in which tools return and which cannot go on. |
| Deadlocks.SettlesIffAcyclic | eap/environment/executor.py:394-460 | For macros without branching or approvals and with known references within depth, every execution in which tools return settles if and only if the waits have no cycle. |
| ValidatedRuns.BareReferenceDeadlocks | eap/environment/executor.py:394-412 | An accepted macro that, in every run, is never published, persisted or done: it waits for itself. |
| Workflow.ValidateGraph | eap/protocol/models.py:579-694 | Blank workflow and node ids included, accepts exactly the well-drawn graphs whose dependency edges are acyclic; reports a cycle exactly for the other well-drawn ones. |
| Workflow.BranchEdgesAreTargets | eap/protocol/models.py:658-691 | In an accepted graph the edges of each kind lead to exactly the targets the step lists for that outcome. |
| Workflow.OrderNodes | eap/protocol/models.py:696-720 | The order is complete exactly when dependencies are acyclic, and is then topological. |
| Workflow.Compile | eap/protocol/models.py:722-762 | A well-drawn graph compiles to a macro that only nesting depth or a reference and branch cycle can reject. |
| Workflow.CompiledIsPermutation | eap/protocol/models.py:728-753 | The steps are those of the nodes, each once. |
| Workflow.CompiledIsWellFormed | eap/protocol/models.py:753-762 | The uniqueness, unknown-target, self-target and approval checks cannot fire on the result. |
| Workflow.CompiledOrderIsLeast | eap/protocol/models.py:728-751 | The step order is the least topological order of the dependency edges. |
| Workflow.CompilationIsCanonical | eap/protocol/models.py:722-753 | The result does not depend on the order of nodes or edges, nor on repeated edges. |
| Coordinator.DistributedCoordinator.EnqueueMacro | eap/environment/distributed_executor.py:116-146 | The row loop is the enqueue transition. |
| Coordinator.DistributedCoordinator.ExpireStaleLeases | eap/environment/distributed_executor.py:148-171 | Whatever order the stale rows come in, they all expire and exactly their started steps are requeued. |
| Coordinator.DistributedCoordinator.SelectQueued | eap/environment/distributed_executor.py:193-201 | The queued steps, each once, soonest first and then by step id; ties come in any order. |
| Coordinator.DistributedCoordinator.ClaimWork | eap/environment/distributed_executor.py:185-255 | Sweep, then one pass over the queue up to the capacity; nothing happens for a capacity below one. |
| Coordinator.DistributedCoordinator.Heartbeat | eap/environment/distributed_executor.py:257-282 | Extends the lease, and says so, exactly for the worker that holds it unexpired. |
| Coordinator.DistributedCoordinator.CompleteLease | eap/environment/distributed_executor.py:284-312 | Succeeds exactly for the holder of an active lease; writes the outcome and closes the lease. |
| Coordinator.DistributedCoordinator.FailLease | eap/environment/distributed_executor.py:314-373 | Requeues while attempts remain and fails the step otherwise; changes nothing for anyone but the holder. |
| CoordinatorRuns.ApplyKeepsInv | eap/environment/distributed_executor.py:116-373 | Every transition keeps lease exclusion, attempt counts, failure limits and met dependencies. |
| CoordinatorRuns.RunInv | eap/environment/distributed_executor.py:116-373 | They hold in every state of every run from empty tables. |
| CoordinatorTheorems.ClaimWorkIsPath | eap/environment/distributed_executor.py:185-255 | A whole claim is a stretch of such a run: its unguarded updates only ever hit queued steps. |
| CoordinatorTheorems.ClaimTakesFirstEligible | eap/environment/distributed_executor.py:203-255 | A claim grants the first claimable steps of the queue, as many as the capacity allows, each one attempt further and with its own lease. |
| CoordinatorTheorems.LeaseExclusion | eap/environment/distributed_executor.py:215-243 | A step is started exactly when it has an active lease, and never has two. |
| CoordinatorTheorems.OutcomesAreFinal | eap/environment/distributed_executor.py:284-373 | `completed` and `failed` rows never change again; the output pointer is written once. |
| CoordinatorTheorems.DeadLeasesStayDead | eap/environment/distributed_executor.py:148-171 | A swept, completed or failed lease stays so, and no call with it changes anything, whoever holds the step by then. |
| CoordinatorTheorems.AttemptAccounting | eap/environment/distributed_executor.py:338-372 | `attempt` counts the leases issued; at most the limit of them failed; it exceeds the limit by at most the expirations. |
| CoordinatorTheorems.ClaimsBounded | eap/environment/distributed_executor.py:338-372 | Claims on any set of steps are bounded by the sum of their limits plus their expirations. |
| CoordinatorTheorems.DependencySafety | eap/environment/distributed_executor.py:203-213 | No transitive dependent of a failed, unfinished or missing step has ever been claimed. |
| CoordinatorTheorems.CyclesNeverClaimed | eap/environment/distributed_executor.py:203-213 | No step on a dependency cycle is ever claimed. |
| CoordinatorTheorems.ClaimStallsIffAllDoomed | eap/environment/distributed_executor.py:173-255 | With nothing in flight and no backoff pending, a claim comes back empty exactly when every queued step has a failed transitive ancestor. |
| CoordinatorLaws.DependenciesIff | eap/environment/distributed_executor.py:88-96 | The dependencies are exactly the ids of whole top-level references, with the prefix taken out of them. |
| CoordinatorLaws.ReferenceIsDependency | eap/environment/distributed_executor.py:88-96 | An argument `$step:d`, with or without a path, makes `d` a dependency. |
| CoordinatorLaws.DependencyIsReference | eap/environment/distributed_executor.py:88-96 | Nothing else is: unless an id holds the prefix, each dependency is a reference the validator sees. |
| CoordinatorLaws.NamesAgreeIff | eap/environment/distributed_executor.py:88-96 | Coordinator and validator name the same step exactly when the id does not hold the prefix. |
| CoordinatorLaws.NestedPrefixDiffers | eap/environment/distributed_executor.py:93 | An argument they read differently. |
| CoordinatorLaws.EnqueuedClaimable | eap/environment/distributed_executor.py:116-146 | A freshly enqueued step is queued and may be claimed from then on exactly if it refers to no step. |
| CoordinatorLaws.ReferencesFirst | eap/environment/distributed_executor.py:203-213 | In every run, a step of an enqueued macro with an argument `$step:d` has been claimed only if `d` has completed with a pointer. |
| CoordinatorLaws.QueuePrecedes | eap/environment/distributed_executor.py:193-201 | Steps come in the order they are due, and by step id when due together. |
| CoordinatorLaws.SweepExactly | eap/environment/distributed_executor.py:148-171 | A sweep ends exactly the leases that have run out, and their steps are due at once. |
| CoordinatorLaws.HeartbeatIff | eap/environment/distributed_executor.py:257-282 | A heartbeat succeeds exactly when a sweep at that moment would have left the lease to its worker. |
| CoordinatorLaws.HeartbeatExtends | eap/environment/distributed_executor.py:257-282 | It keeps the lease through every sweep before its new expiry, and no longer. |
| CoordinatorLaws.GrantsAreLeases | eap/environment/distributed_executor.py:215-255 | Each grant of a claim is an active lease of the worker, with the expiry told, on a started step. |
| CoordinatorLaws.StrangersChangeNothing | eap/environment/distributed_executor.py:257-373 | Whoever does not hold an active lease changes nothing with it. |
| CoordinatorLaws.FailureRequeues | eap/environment/distributed_executor.py:338-372 | While attempts remain, a failed step is queued and claimable exactly from its retry time on with its dependencies met; otherwise it has failed. |
| CoordinatorLaws.FailedUsedItsAttempts | eap/environment/distributed_executor.py:338-372 | In every run a failed step has used all its attempts. |
| CoordinatorLaws.CompletionDelivers | eap/environment/distributed_executor.py:284-312 | The pointer the holder hands in is the step's output for ever after, and satisfies dependents exactly if it is not empty. |
| TokenBucket.AsyncTokenBucket.Acquire | eap/environment/executor.py:35-61 | The loop is repeated polling of the bucket; its level stays between zero and the capacity. |
| TokenBucket.OneWaitSuffices | eap/environment/executor.py:42-61 | With no competing caller one computed wait is enough. |
| TokenBucket.GrantsBounded | eap/environment/executor.py:42-61 | Over any interval the grants are at most the capacity plus the rate times its length. |
| TokenBucket.TokensConserved | eap/environment/executor.py:42-61 | Start plus inflow is what is left, plus one token for each grant, plus what flowed in while the bucket was full. |
| TokenBucket.BurstGrantsAll | eap/environment/executor.py:42-61 | A bucket with a token for each of several polls at one instant grants them all. |
| TokenBucket.WaitIsExact | eap/environment/executor.py:54-61 | Without a competitor the next poll is granted exactly from the end of the computed wait on. |
| TokenBucket.AcquisitionIsPolling | eap/environment/executor.py:42-61 | An acquisition polls up to its first grant and leaves the bucket those polls leave. |
| Guardrails.RuntimeGuardrails.CheckRateLimit | eap/runtime/guardrails.py:204-237 | Decides from the bucket of one operation and actor and touches no other. |
| Guardrails.WindowNeverOverfull | eap/runtime/guardrails.py:204-237 | For a non-decreasing clock no half-open window holds more admitted calls than the limit. |
| Guardrails.RuntimeGuardrails.Serve | eap/runtime/guardrails.py:204-237 | Over any interleaving of operations and actors, each call is decided by the earlier calls of its own key alone. |
| Guardrails.EveryKeyWithinLimit | eap/runtime/guardrails.py:204-237 | So no window holds more allowed calls of an operation and actor than the limit, however calls interleave. |
| Guardrails.DeniedOnlyWhenFull | eap/runtime/guardrails.py:209-226 | A call is admitted if and only if the window ending now holds fewer admitted calls than the limit. |
| Guardrails.RemainingIsRight | eap/runtime/guardrails.py:213-237 | An admitted call is told the limit minus the calls admitted in the window ending now, itself included; a denied one none. |
| Guardrails.RetryTimeIsRight | eap/runtime/guardrails.py:212-224 | After a denial, a call is admitted exactly from the time the oldest call leaves the window, which is never after the reported retry time. |
| Guardrails.HeaderSeconds | eap/runtime/guardrails.py:312-314 | The Retry-After value is at least one second, never undershoots the wait, and overshoots it by less than one second otherwise. |
| Timestamps.TextOrderIsTimeOrder | eap/environment/distributed_executor.py:150-157 | Text order of printed UTC timestamps is time order, although a zero fraction is left out. |
| Timestamps.SameTextSameTime | eap/protocol/state_manager.py:225-227 | Two instants print alike exactly when they are the same. |
| Timestamps.ParsePrinted | eap/protocol/storage/base.py:45-52 | Reading a printed timestamp gives back the instant. |
| Timestamps.PlusReaches | eap/protocol/state_manager.py:258-263 | Adding a lifetime lands on the instant that much later whenever the calendar has one. |
| PointerTable.FilterIsExpiry | eap/protocol/storage/sqlite_store.py:141-153 | The text filter keeps exactly the rows `is_expired` calls unexpired. |
| PointerTable.ExpiredWhenLifetimePassed | eap/protocol/state_manager.py:256-266 | A stored pointer is expired exactly when its lifetime has passed since its creation. |
| PointerTable.ListingUnique | eap/protocol/storage/sqlite_store.py:151-152 | Newest first, ids breaking ties, leaves one possible listing. |
| PointerTable.CleanupConserves | eap/protocol/storage/base.py:80-98 | Cleanup deletes expired records only, as many as the limit allows, leaves the rest untouched, and deleted plus remaining is what was expired before. |
| PointerStores.SqlitePointerStore.StorePointer | eap/protocol/storage/sqlite_store.py:96-122 | Adds the record; an existing id is an error. |
| PointerStores.SqlitePointerStore.RetrievePointer | eap/protocol/storage/sqlite_store.py:124-130 | The raw data, or the missing-key error. |
| PointerStores.SqlitePointerStore.DeletePointer | eap/protocol/storage/sqlite_store.py:175-178 | Removes the record and says whether there was one. |
| PointerStores.SqlitePointerStore.ListPointers | eap/protocol/storage/sqlite_store.py:132-173 | The listing of the map, cut at the limit; a limit below one is an error. |
| PointerStores.DecodeEncode | eap/protocol/storage/redis_store.py:55-104 | A record written as text fields is read back as the row of that record. |
| PointerStores.RedisPointerStore.StorePointer | eap/protocol/storage/redis_store.py:45-67 | Writes the hash, then the index, with the type errors of either. |
| PointerStores.RedisPointerStore.RetrievePointer | eap/protocol/storage/redis_store.py:69-73 | The raw field, the missing-key error, or the type error. |
| PointerStores.RedisPointerStore.DeletePointer | eap/protocol/storage/redis_store.py:117-120 | Removes the hash, then the index entry. |
| PointerStores.RedisPointerStore.ListPointers | eap/protocol/storage/redis_store.py:75-115 | The same listing as the map's, in whatever order the id set is read. |
| StoreAgreement.StoreAgreesIff | eap/protocol/storage/redis_store.py:45-67 | Redis stores as the map does exactly for fresh ids other than `ids`. |
| StoreAgreement.RetrieveAgreesIff | eap/protocol/storage/redis_store.py:69-73 | Redis retrieves as the map does exactly for ids other than `ids`, or from an empty store. |
| StoreAgreement.DeleteAgreesIff | eap/protocol/storage/redis_store.py:117-120 | Redis deletes as the map does exactly under the same condition. |
| StoreAgreement.ListExpired | eap/protocol/storage/base.py:62-78 | The expired rows of the listing, cut at the limit. |
| StoreAgreement.CleanupExpired | eap/protocol/storage/base.py:80-98 | On either backend, the cleanup of the map. |
| StoreAgreement.Run | eap/protocol/storage/base.py:9-43 | A backend answers any session of ordinary operations as the map does. |
| StoreAgreement.BackendsAgree | eap/protocol/storage/base.py:9-43 | From empty stores both backends give the same replies. |
| StoreLaws.RetrieveAfterStore | eap/protocol/storage/sqlite_store.py:96-130 | A pointer stored and since neither deleted nor cleaned up is retrieved with the data stored. |
| StoreLaws.ListAfterStore | eap/protocol/storage/sqlite_store.py:132-173 | A full listing has its row, field by field. |
| StoreLaws.RemovedIsGone | eap/protocol/storage/sqlite_store.py:124-178 | A removed pointer is unknown until it is stored again. |
| StoreLaws.RepliesTellPresence | eap/protocol/storage/sqlite_store.py:96-178 | Storing twice is refused; deleting says whether there was anything. |
| StoreLaws.LimitsRefused | eap/protocol/storage/base.py:62-68 | A limit is refused exactly when it is not positive. |
| StoreLaws.NewestFirst | eap/protocol/storage/sqlite_store.py:151-152 | Later timestamps come first in a listing. |
| StoreLaws.LimitTakesNewest | eap/protocol/storage/sqlite_store.py:151-155 | A limited listing has the newest visible rows, as many as the limit allows. |
| SafeEval.SafeExpressionValidator.Visit | eap/environment/safe_eval.py:44-98 | Accepts exactly the allowed trees within what is left of the node budget, counts every node once, and either error is truthful. |
| Evaluation.NoUnsupported | eap/environment/safe_eval.py:138-216 | On an allowed tree no "unsupported" raise is reachable. |
| Evaluation.EachNodeOnce | eap/environment/safe_eval.py:138-216 | No position is evaluated twice, so there are at most as many evaluations as nodes. |
| Evaluation.VisitedArePositions | eap/environment/safe_eval.py:138-216 | What is evaluated are positions of the tree. |
| ExpressionLaws.ConnectiveMeaning | eap/environment/safe_eval.py:179-185 | `and` and `or` fail exactly when some operand does and otherwise are the plain connectives. |
| ExpressionLaws.ReorderingIsHarmless | eap/environment/safe_eval.py:179-185 | Permuting operands changes neither failure nor the value. |
| ExpressionLaws.ReorderingIsAccepted | eap/environment/safe_eval.py:48-82 | Nor whether the validator accepts. |
| ExpressionLaws.DeMorgan | eap/environment/safe_eval.py:179-190 | De Morgan's laws hold down to which operand's failure is reported. |
| ExpressionLaws.DeMorganSize | eap/environment/safe_eval.py:48-52 | What they cost in nodes. |
| ExpressionLaws.PushKeepsMeaning | eap/environment/safe_eval.py:179-190 | Negation normal form keeps the result of every expression, failures included. |
| ExpressionLaws.PushIsNormal | eap/environment/safe_eval.py:179-190 | In that form no negation stands above an `and` or an `or`. |
| ComparisonLaws.IntegersCompare | eap/environment/safe_eval.py:107-125 | The four ordered comparisons of integers are those of the integers. |
| ComparisonLaws.FloatsCompare | eap/environment/safe_eval.py:107-125 | Likewise for floats. |
| ComparisonLaws.BooleansCompare | eap/environment/safe_eval.py:107-125 | False is less than true. |
| ComparisonLaws.StringsCompare | eap/environment/safe_eval.py:107-125 | Strings compare code point by code point. |
| ComparisonLaws.OrderFailsIff | eap/environment/safe_eval.py:101-112 | An ordered comparison fails exactly unless both sides are booleans, integers, floats or strings. |
| ComparisonLaws.EqualityIs | eap/environment/safe_eval.py:196-207 | `==`, `!=`, `is` and `is not` ask Python's equality and identity, or their opposite. |
| ComparisonLaws.MembershipIs | eap/environment/safe_eval.py:128-135 | `in` and `not in` ask the container on the right, and fail exactly when there is none or it raises. |
| ComparisonLaws.ChainIsConjunction | eap/environment/safe_eval.py:192-214 | A chain is true exactly when each of its comparisons, written by itself, is true. |
| ComparisonLaws.ChainIsDecidedBy | eap/environment/safe_eval.py:192-214 | Otherwise it is what its first comparison that is not true is, failure included. |
| ComparisonLaws.NegationOf | eap/environment/safe_eval.py:187-190 | `not` is true of `None`, false, zero, the empty text and empty containers, and of nothing else. |
| ComparisonLaws.ContainersAre | eap/environment/safe_eval.py:147-164 | Lists, tuples and sets hold their items' values in order, up to 128; sets take scalars only. |
| ComparisonLaws.DictionariesAre | eap/environment/safe_eval.py:166-177 | Dictionaries hold their entries in order, up to 128. |
| ComparisonLaws.OperatorsKnown | eap/environment/safe_eval.py:26-40 | The operators the validator lets through are those the evaluator knows. |
| Evaluator.EvaluateNode | eap/environment/safe_eval.py:138-216 | The recursive evaluator with its loops over items, entries and comparison chains computes the meaning the laws are about, and evaluates exactly the positions of its trace. |
| Evaluator.EvaluateSafeExpression | eap/environment/safe_eval.py:219-236 | Refused exactly outside the language or the budget; inside, failures are about values only, a result is the boolean the expression means, and fewer than 256 distinct positions of the tree are evaluated. |
| Framing.HeaderParses | eap/environment/mcp_client.py:142-148 | The printed header parses to the length. |
| Framing.FrameReadsBack | eap/environment/mcp_client.py:116-140 | A frame reads back as its payload, whatever the payload holds and whatever follows. |
| Framing.FramesReadBack | eap/environment/mcp_client.py:116-140 | So does any sequence of frames. |
| Framing.ChainUnique | eap/environment/mcp_client.py:126-140 | What a stream is read as, and where it then stands, is determined. |
| Framing.InsideFirstLine | eap/environment/mcp_client.py:126-148 | A read that starts inside the first line of a header fails for want of a length. |
| Framing.ReadsRightIffNothingTaken | eap/environment/mcp_client.py:126-180 | A read that starts `k` bytes into a frame returns its payload and leaves what follows if and only if `k` is zero. |
| Framing.TimeOutHarmlessIff | eap/environment/mcp_client.py:126-180 | After a read that ran out of time the next one is right if and only if nothing had been taken. |
| Framing.TruncatedFrame | eap/environment/mcp_client.py:126-180 | A stream that ends inside a frame is an error, except in one stated case. |
| Framing.CutAfterHeaderMisreads | eap/environment/mcp_client.py:126-136 | Every payload can be read out of another by a reader that gave up after its header. |
| McpClient.MCPStdioClient.WriteMessage | eap/environment/mcp_client.py:116-124 | Appends the frame of the payload. |
| McpClient.MCPStdioClient.ReadUntil | eap/environment/mcp_client.py:150-164 | Takes exactly the shortest beginning with the delimiter, or everything at end of stream; out of time, a beginning without it, and nothing if nothing was readable. |
| McpClient.MCPStdioClient.ReadExact | eap/environment/mcp_client.py:166-180 | Whatever the chunking, exactly the bytes asked for; out of time, fewer of them. |
| McpClient.MCPStdioClient.ReadMessage | eap/environment/mcp_client.py:126-140 | A read that does not time out gets what the stream holds, or its exact error; one that does leaves the stream inside an unfinished message. |
| McpClient.MCPStdioClient.ReadMessages | eap/environment/mcp_client.py:126-140 | So does any number of reads, and the whole messages read before a failure are told. |
| McpClient.MCPStdioClient.Request | eap/environment/mcp_client.py:94-114 | The next id is used, the request is framed, and the answer is the first message with that id; out of time, only other messages were skipped and the stream stands inside the next; with nothing readable it stands where it was. |
| McpClient.MCPStdioClient.Converse | eap/environment/mcp_client.py:94-114 | Requests one after the other make a session as long as those that give up do so between messages. |
| McpClient.FirstMatchingReply | eap/environment/mcp_client.py:105-114 | Messages before the one with the id, late replies included, are skipped. |
| McpClient.NoReplyNoAnswer | eap/environment/mcp_client.py:105-114 | Without such a message there is no answer, rather than another's. |
| McpSessions.MessagesReadBack | eap/environment/mcp_client.py:116-140 | Reading as many messages as were written gives exactly the payloads. |
| McpSessions.RepliesMeetRequests | eap/environment/mcp_client.py:94-114 | In any session, requests that gave up between two messages included, the replies are distinct messages of the stream, in order, each with its own request's id: a late reply is never returned for a later request. |

## Left out

- Deadlocks.SettlesIffAcyclic: macros with branching or approvals are outside the equivalence, since a skip, a rejection or an earlier error can break a circle of waits; for them an acyclic wait graph suffices to settle and a group that blocks itself suffices not to.
- Rate buckets inside the executor: a wait for a token is one step of the task that holds both slots; the buckets themselves are in TokenBucket.
- The lookup from tool name or hash to a limit key: a map in the configuration.
- Regex substitution of step outputs into condition text, and whether a condition waits for the steps it mentions: the event carries the condition's value.
- Graph dependency edges at run time: they order the list of steps and nothing else.
- Early exit after a resume, which the code does not keep, and re-running dependents of a paused step.
- Resuming a run while another process still executes it.
- Several coordinators on one database and re-enqueueing an existing run id; methods are atomic and run ids fresh.
- Runtime resolution of arguments in the worker loop, step listings and policy defaults of the coordinator.
- acquire_concurrency and release_concurrency of the guardrails, and normalisation of rules: easy counters.
- Retry delays and lease durations: the times they lead to are parameters.
- The Postgres store, migrations and connection handling.
- JSON, JSON schema and hashing: metadata is kept as its text, and message decoding is a given function; ids that are not integers but equal one in Python are not modelled.
- Timestamps that are naive or carry another offset, and malformed expiry text.
- Python parsing of expressions; `is`, `==` and `in` on values are given functions, floats are reals.
- Unicode digits and underscores accepted by `int`, and UTF-8 decoding of header text beyond ASCII.
- LLM providers, the HTTP server, SDK clients, the user interface, scripts, logging, settings, file and URL checks, memory policy and conversation sessions.
