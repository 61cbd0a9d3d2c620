/**
  The macro executor (eap/environment/executor.py) as a step relation. Every step of the
  macro is a task with a program counter; one event is the code between two awaits of one
  task. Tool results, retryability of exceptions, condition values and pointer ids come
  from the environment and are carried by the events.
 */
module Scheduler {
  import opened Wrappers
  import opened Graph
  import M = Macro

  type Pointer = nat  // ids made by the state manager; never empty

  datatype Status = Ok | Error | Skipped | Rejected | Paused
  {
    /** Statuses that a resumed run replays instead of executing. */
    predicate Terminal() { this != Paused }
  }

  datatype Published = Published(status: Status, pointer: Pointer)

  /** One thing argument resolution does, in order. */
  datatype Action = Await(id: Id) | Load | TooDeep

  datatype Pc =
    | Queued
    | AwaitingControllers
    | Resolving(pending: seq<Action>)
    | WantsGlobal(attempt: nat)
    | WantsTool(attempt: nat)
    | Holding(attempt: nat)
    | Calling(attempt: nat)
    | BackingOff(attempt: nat)
    | Persisting
    | Finished
  {
    predicate HoldsGlobal() { WantsTool? || Holding? || Calling? || BackingOff? }
    predicate HoldsTool() { Holding? || Calling? || BackingOff? }
    predicate Attempting() { WantsGlobal? || HoldsGlobal() }
  }

  datatype RunStatus = Active | AwaitingApproval | Completed

  datatype Checkpoint = Checkpoint(run: RunStatus, status: map<Id, Published>, decisions: map<Id, set<Id>>)

  datatype Config = Config(
    steps: map<Id, M.Step>,
    maxAttempts: nat,
    resolutionDepth: nat,
    hasDeadline: bool,
    globalLimit: nat,
    toolKey: map<Id, string>,        // steps whose tool has a per-tool semaphore
    toolLimit: map<string, nat>)

  datatype State = State(
    live: bool,                      // the process is up
    done: bool,                      // the final checkpoint has been written
    timedOut: bool,
    approvals: map<Id, M.Decision>,
    pc: map<Id, Pc>,
    status: map<Id, Published>,      // step_status
    futures: map<Id, Pointer>,       // resolved step futures
    decisions: map<Id, set<Id>>,     // branch_decisions
    earlyExit: bool,
    globalFree: int,                 // semaphore counters
    toolFree: map<string, int>,
    called: set<Id>,                 // tools started in this execution
    checkpoint: Checkpoint)          // the persisted row

  // ----- Static structure of a macro -----

  ghost predicate ValidConfig(c: Config)
  {
    && (forall id :: id in c.steps ==> c.steps[id].stepId == id)
    && c.maxAttempts >= 1 && c.globalLimit >= 1
    && (forall k :: k in c.toolLimit ==> c.toolLimit[k] >= 1)
    && (forall id :: id in c.toolKey ==> c.toolKey[id] in c.toolLimit)
  }

  /** Steps that can activate `id` by a branch. */
  function Controllers(c: Config, id: Id): set<Id>
  {
    set ctrl | ctrl in c.steps && id in c.steps[ctrl].Targets()
  }

  /** The step's tool has a concurrency limit of its own, filed under `key`. */
  predicate Limited(c: Config, id: Id, key: string)
  {
    id in c.toolKey && c.toolKey[id] == key
  }

  /** `_resolve_argument_value`: what is awaited, loaded or refused, in order. */
  function Actions(v: M.Value, depth: nat, limit: nat): seq<Action>
    decreases v
  {
    if depth > limit then [TooDeep]
    else match v
      case Str(text) =>
        if M.IsReference(text) then [Await(M.Head(M.Payload(text)))]
        else if "ptr_" <= text then [Load] else []
      case Dict(_, items) => AllActions(items, depth + 1, limit)
      case List(items) => AllActions(items, depth + 1, limit)
      case Scalar => []
  }

  function AllActions(items: seq<M.Value>, depth: nat, limit: nat): seq<Action>
    decreases items
  {
    if items == [] then []
    else AllActions(items[..|items| - 1], depth, limit) + Actions(items[|items| - 1], depth, limit)
  }

  function StepActions(c: Config, id: Id): seq<Action>
    requires id in c.steps
  {
    AllActions(M.Values(c.steps[id]), 0, c.resolutionDepth)
  }

  // ----- Starting and resuming -----

  function Slots(c: Config): map<string, int>
  {
    map k | k in c.toolLimit :: c.toolLimit[k]
  }

  /** The state in which the tasks are created, from nothing or from a checkpoint. */
  function Launch(
      c: Config, approvals: map<Id, M.Decision>, status: map<Id, Published>, decisions: map<Id, set<Id>>): State
  {
    State(true, false, false, approvals,
          map id | id in c.steps :: Queued,
          status,
          map id | id in status && status[id].status.Terminal() && id in c.steps :: status[id].pointer,
          decisions, false, c.globalLimit, Slots(c), {},
          Checkpoint(Active, status, decisions))
  }

  function Begin(c: Config, approvals: map<Id, M.Decision>): State
  {
    Launch(c, approvals, map[], map[])
  }

  // ----- Publishing an outcome -----

  /** The task moved outside the attempt loop without touching a semaphore. */
  ghost predicate Still(s: State, s': State, id: Id)
  {
    && id in s'.pc && s'.pc == s.pc[id := s'.pc[id]] && !s'.pc[id].HoldsGlobal()
    && s'.globalFree == s.globalFree && s'.toolFree == s.toolFree
  }

  /** The task reached its checkpoint write without touching a semaphore. */
  ghost predicate EndsTask(s: State, s': State, id: Id)
  {
    s'.pc == s.pc[id := Persisting] && s'.globalFree == s.globalFree && s'.toolFree == s.toolFree
  }

  /**
    Status, branch decision and future are set together. `resolves` tells the
    paths that go through `resolve_branch_targets`, which alone can raise early exit.
   */
  function Publish(
      s: State, id: Id, step: M.Step, status: Status, ptr: Pointer, selected: set<Id>, resolves: bool): (s': State)
    ensures EndsTask(s, s', id)
  {
    State(
      s.live, s.done, s.timedOut, s.approvals,
      s.pc[id := Persisting],
      s.status[id := Published(status, ptr)],
      if id in s.futures then s.futures else s.futures[id := ptr],
      if step.branching.Some? then s.decisions[id := selected] else s.decisions,
      s.earlyExit || (resolves && step.branching.Some? && step.branching.value.allowEarlyExit && selected == {}),
      s.globalFree, s.toolFree, s.called, s.checkpoint)
  }

  function Targets(ids: seq<Id>): set<Id> { set t | t in ids }

  function PublishFailure(s: State, id: Id, step: M.Step, status: Status, ptr: Pointer): (s': State)
    ensures EndsTask(s, s', id)
  {
    Publish(s, id, step, status, ptr, if step.branching.Some? then Targets(step.branching.value.onError) else {}, true)
  }

  function PublishIdle(s: State, id: Id, step: M.Step, status: Status, ptr: Pointer): (s': State)
    ensures EndsTask(s, s', id)
  {
    Publish(s, id, step, status, ptr, {}, false)
  }

  /** A condition that cannot be evaluated turns the result into an error before the future is set. */
  function PublishSuccess(s: State, id: Id, step: M.Step, ptr: Pointer, condition: Option<bool>): (s': State)
    ensures EndsTask(s, s', id)
  {
    if step.branching.None? then Publish(s, id, step, Ok, ptr, {}, true)
    else match condition
      case None => PublishFailure(s, id, step, Error, ptr)
      case Some(b) =>
        var selected := if b then step.branching.value.onTrue else step.branching.value.onFalse;
        Publish(s, id, step, Ok, ptr, Targets(selected), true)
  }

  function Activated(c: Config, s: State, id: Id): bool
  {
    exists ctrl :: ctrl in Controllers(c, id) && ctrl in s.decisions && id in s.decisions[ctrl]
  }

  /** Branch activation, early exit and approval, in that order; `None` lets the step through. */
  function GateOutcome(c: Config, s: State, id: Id): Option<Status>
    requires id in c.steps
  {
    var step := c.steps[id];
    if Controllers(c, id) != {} && !Activated(c, s, id) then Some(Skipped)
    else if s.earlyExit then Some(Skipped)
    else if step.approvalRequired && id !in s.approvals then Some(Paused)
    else if step.approvalRequired && s.approvals[id] == M.Reject then Some(Rejected)
    else None
  }

  function PassGate(c: Config, s: State, id: Id, ptr: Pointer): (s': State)
    requires id in c.steps
    ensures Still(s, s', id) && (s'.pc[id] == Persisting || s'.pc[id] == Resolving(StepActions(c, id)))
  {
    match GateOutcome(c, s, id)
    case None => s.(pc := s.pc[id := Resolving(StepActions(c, id))])
    case Some(status) =>
      if status == Rejected then PublishFailure(s, id, c.steps[id], status, ptr)
      else PublishIdle(s, id, c.steps[id], status, ptr)
  }

  function Release(c: Config, s: State, id: Id): State
    requires id in c.steps
  {
    s.(globalFree := s.globalFree + 1,
       toolFree := if id in c.toolKey && c.toolKey[id] in s.toolFree
                   then s.toolFree[c.toolKey[id] := s.toolFree[c.toolKey[id]] + 1] else s.toolFree)
  }

  function Snapshot(s: State, run: RunStatus): Checkpoint
  {
    Checkpoint(run, s.status, s.decisions)
  }

  // ----- Events -----

  /** What one task does between two awaits. */
  datatype Act =
    | Start(ptr: Pointer)
    | Gate(ptr: Pointer)
    | Resolve(ptr: Pointer, loads: bool)
    | CheckArguments(ptr: Pointer, valid: bool)
    | TakeGlobal
    | TakeTool
    | Call
    | Return(ptr: Pointer, condition: Option<bool>)
    | Raise(ptr: Pointer, retryable: bool)
    | Wake
    | Persist

  datatype Event =
    | Task(id: Id, act: Act)
    | Complete
    | TimeOut(pointers: map<Id, Pointer>)
    | Crash
    | Resume(approvals: map<Id, M.Decision>)
  {
    predicate WithinExecution() { !Crash? && !Resume? }
  }

  predicate TaskEnabled(c: Config, s: State, id: Id, act: Act)
  {
    && s.live && !s.done && id in c.steps && id in s.pc
    && var pc := s.pc[id];
    match act
    case Start(_) => pc == Queued
    case Gate(_) => pc == AwaitingControllers && Controllers(c, id) <= s.futures.Keys
    case Resolve(_, _) =>
      pc.Resolving? && pc.pending != []
      && (pc.pending[0].Await? && pc.pending[0].id in c.steps ==> pc.pending[0].id in s.futures)
    case CheckArguments(_, _) => pc.Resolving? && pc.pending == []
    case TakeGlobal => pc.WantsGlobal? && s.globalFree > 0
    case TakeTool => pc.WantsTool? && id in c.toolKey && c.toolKey[id] in s.toolFree && s.toolFree[c.toolKey[id]] > 0
    case Call => pc.Holding?
    case Return(_, _) => pc.Calling?
    case Raise(_, _) => pc.Calling?
    case Wake => pc.BackingOff?
    case Persist => pc == Persisting
  }

  predicate Enabled(c: Config, s: State, e: Event)
  {
    match e
    case Task(id, act) => TaskEnabled(c, s, id, act)
    case Complete => s.live && !s.done && forall id :: id in s.pc ==> s.pc[id] == Finished
    case TimeOut(pointers) =>
      && s.live && !s.done && c.hasDeadline && (exists id :: id in s.pc && s.pc[id] != Finished)
      && c.steps.Keys - s.status.Keys <= pointers.Keys
    case Crash => s.live
    case Resume(_) => (!s.live || s.done) && s.checkpoint.run != Completed
  }

  function At(s: State, id: Id, pc: Pc): State
  {
    s.(pc := s.pc[id := pc])
  }

  /** A step with a final outcome resolves its future and is finished. */
  function Replay(s: State, id: Id, ptr: Pointer): (s': State)
    ensures Still(s, s', id) && s'.pc[id] == Finished
  {
    At(s.(futures := if id in s.futures then s.futures else s.futures[id := ptr]), id, Finished)
  }

  /** The beginning of `run_step`: replay, wait for controllers, or go straight to the gate. */
  function StartTask(c: Config, s: State, id: Id, ptr: Pointer): (s': State)
    requires id in c.steps
    ensures Still(s, s', id)
  {
    if id in s.status && s.status[id].status.Terminal() then Replay(s, id, s.status[id].pointer)
    else if Controllers(c, id) != {} then At(s, id, AwaitingControllers)
    else PassGate(c, s, id, ptr)
  }

  predicate Succeeds(s: State, a: Action, loads: bool)
  {
    match a
    case Await(x) => x in s.futures && x in s.status && s.status[x].status == Ok
    case Load => loads
    case TooDeep => false
  }

  function ResolveNext(c: Config, s: State, id: Id, ptr: Pointer, loads: bool): (s': State)
    requires id in c.steps && id in s.pc && s.pc[id].Resolving? && s.pc[id].pending != []
    ensures Still(s, s', id)
  {
    if Succeeds(s, s.pc[id].pending[0], loads) then At(s, id, Resolving(s.pc[id].pending[1..]))
    else PublishFailure(s, id, c.steps[id], Error, ptr)
  }

  function AcquireGlobal(c: Config, s: State, id: Id): State
    requires id in s.pc && s.pc[id].WantsGlobal?
  {
    var a := s.pc[id].attempt;
    At(s.(globalFree := s.globalFree - 1), id, if id in c.toolKey then WantsTool(a) else Holding(a))
  }

  function AcquireTool(c: Config, s: State, id: Id): State
    requires id in s.pc && s.pc[id].WantsTool? && id in c.toolKey && c.toolKey[id] in s.toolFree
  {
    At(s.(toolFree := s.toolFree[c.toolKey[id] := s.toolFree[c.toolKey[id]] - 1]), id, Holding(s.pc[id].attempt))
  }

  /** An exception out of the tool: the backoff sleep happens before the slots are given back. */
  function FailCall(c: Config, s: State, id: Id, ptr: Pointer, retryable: bool): State
    requires id in c.steps && id in s.pc && s.pc[id].Calling?
  {
    if retryable && s.pc[id].attempt < c.maxAttempts then At(s, id, BackingOff(s.pc[id].attempt))
    else PublishFailure(Release(c, s, id), id, c.steps[id], Error, ptr)
  }

  function TaskStep(c: Config, s: State, id: Id, act: Act): State
    requires TaskEnabled(c, s, id, act)
  {
    match act
    case Start(ptr) => StartTask(c, s, id, ptr)
    case Gate(ptr) => PassGate(c, s, id, ptr)
    case Resolve(ptr, loads) => ResolveNext(c, s, id, ptr, loads)
    case CheckArguments(ptr, valid) =>
      if valid then At(s, id, WantsGlobal(1)) else PublishFailure(s, id, c.steps[id], Error, ptr)
    case TakeGlobal => AcquireGlobal(c, s, id)
    case TakeTool => AcquireTool(c, s, id)
    case Call => At(s.(called := s.called + {id}), id, Calling(s.pc[id].attempt))
    case Return(ptr, condition) => PublishSuccess(Release(c, s, id), id, c.steps[id], ptr, condition)
    case Raise(ptr, retryable) => FailCall(c, s, id, ptr, retryable)
    case Wake => At(Release(c, s, id), id, WantsGlobal(s.pc[id].attempt + 1))
    case Persist => At(s.(checkpoint := Snapshot(s, Active)), id, Finished)
  }

  /** Cancels every task; steps without any status are marked as errors, the rest keep what they have. */
  function MarkTimeouts(c: Config, s: State, pointers: map<Id, Pointer>): State
    requires c.steps.Keys - s.status.Keys <= pointers.Keys
  {
    var unset := c.steps.Keys - s.status.Keys;
    var marked := s.(
      status := s.status + map id | id in unset :: Published(Error, pointers[id]),
      futures := s.futures + map id | id in unset - s.futures.Keys :: pointers[id],
      pc := map id | id in s.pc :: Finished,
      globalFree := c.globalLimit, toolFree := Slots(c), timedOut := true);
    marked.(checkpoint := Snapshot(marked, Active))
  }

  function Step(c: Config, s: State, e: Event): State
    requires Enabled(c, s, e)
  {
    match e
    case Task(id, act) => TaskStep(c, s, id, act)
    case Complete =>
      var paused := exists id :: id in s.status && s.status[id].status == Paused;
      s.(done := true, checkpoint := Snapshot(s, if paused then AwaitingApproval else Completed))
    case TimeOut(pointers) => MarkTimeouts(c, s, pointers)
    case Crash => s.(live := false)
    case Resume(approvals) => Launch(c, s.approvals + approvals, s.checkpoint.status, s.checkpoint.decisions)
  }
}
