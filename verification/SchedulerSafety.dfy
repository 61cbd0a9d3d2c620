/** What every event of the executor keeps, and what follows for every tool call. */
module SchedulerSafety {
  import opened Wrappers
  import opened Graph
  import opened Scheduler
  import M = Macro

  // ----- The invariant -----

  ghost predicate PublishedOk(s: State, id: Id)
  {
    id in s.futures && id in s.status && s.status[id] == Published(Ok, s.futures[id])
  }

  /** The first `n` things the step's arguments ask for have been obtained. */
  ghost predicate Obtained(c: Config, s: State, id: Id, n: nat)
    requires id in c.steps
  {
    var actions := StepActions(c, id);
    n <= |actions| && forall i :: 0 <= i < n ==>
      actions[i] != TooDeep && (actions[i].Await? ==> PublishedOk(s, actions[i].id))
  }

  /** Branch routing selected the step and a required approval was given. */
  ghost predicate Released(c: Config, s: State, id: Id)
    requires id in c.steps
  {
    && Controllers(c, id) <= s.futures.Keys
    && (Controllers(c, id) == {} || Activated(c, s, id))
    && (c.steps[id].approvalRequired ==> id in s.approvals && s.approvals[id] == M.Approve)
  }

  ghost predicate Justified(c: Config, s: State, id: Id)
    requires id in c.steps
  {
    Released(c, s, id) && Obtained(c, s, id, |StepActions(c, id)|)
  }

  ghost predicate TaskInv(c: Config, s: State, id: Id)
    requires id in c.steps && id in s.pc
  {
    match s.pc[id]
    case Queued => id in s.futures <==> id in s.status && s.status[id].status.Terminal()
    case AwaitingControllers => id !in s.futures
    case Resolving(pending) =>
      && id !in s.futures && Released(c, s, id)
      && |pending| <= |StepActions(c, id)|
      && pending == StepActions(c, id)[|StepActions(c, id)| - |pending|..]
      && Obtained(c, s, id, |StepActions(c, id)| - |pending|)
    case Persisting => id in s.futures
    case Finished => id in s.status && (id in s.futures || s.timedOut)
    case _ =>
      && id !in s.futures && Justified(c, s, id)
      && 1 <= s.pc[id].attempt <= c.maxAttempts
      && (s.pc[id].WantsTool? ==> id in c.toolKey)
      && (s.pc[id].BackingOff? ==> s.pc[id].attempt < c.maxAttempts)
  }

  /** A resolved future carries the published pointer; a terminal status has its future resolved. */
  ghost predicate Consistent(s: State, id: Id)
  {
    && (id in s.futures ==> id in s.status && s.status[id].pointer == s.futures[id])
    && (id in s.status && s.status[id].status.Terminal() ==> id in s.futures)
  }

  ghost predicate StatusInv(c: Config, s: State)
  {
    && s.pc.Keys == c.steps.Keys
    && s.futures.Keys <= c.steps.Keys && s.status.Keys <= c.steps.Keys
    && (forall id :: id in c.steps ==> Consistent(s, id))
    && (s.done || s.timedOut ==> forall id :: id in s.pc ==> s.pc[id] == Finished)
  }

  ghost function GlobalHolders(pc: map<Id, Pc>): set<Id>
  {
    set id | id in pc && pc[id].HoldsGlobal()
  }

  ghost function ToolHolders(c: Config, pc: map<Id, Pc>, key: string): set<Id>
  {
    set id | id in pc && pc[id].HoldsTool() && Limited(c, id, key)
  }

  /** The semaphore counters and the tasks holding slots account for every slot. */
  ghost predicate SlotInv(c: Config, s: State)
    requires s.pc.Keys == c.steps.Keys
  {
    && s.globalFree >= 0 && s.globalFree + |GlobalHolders(s.pc)| == c.globalLimit
    && s.toolFree.Keys == Slots(c).Keys
    && forall k :: k in s.toolFree ==> s.toolFree[k] >= 0 && s.toolFree[k] + |ToolHolders(c, s.pc, k)| == Slots(c)[k]
  }

  /** A persisted outcome is also the published one. */
  ghost predicate PersistedInv(s: State)
  {
    forall id :: id in s.checkpoint.status && s.checkpoint.status[id].status.Terminal()
             ==> id in s.futures && id in s.status && s.status[id] == s.checkpoint.status[id]
  }

  ghost predicate CheckpointInv(c: Config, s: State)
  {
    && s.checkpoint.status.Keys <= c.steps.Keys
    && (s.checkpoint.run == Completed ==>
          (s.live ==> s.done)
          && forall id :: id in c.steps ==> id in s.checkpoint.status && s.checkpoint.status[id].status.Terminal())
  }

  ghost predicate Inv(c: Config, s: State)
  {
    && CheckpointInv(c, s)
    && (s.live ==>
          && StatusInv(c, s) && SlotInv(c, s) && PersistedInv(s)
          && (forall id :: id in s.pc ==> TaskInv(c, s, id))
          && (forall id :: id in s.called ==> id in s.pc && Justified(c, s, id)))
  }

  // ----- One task moves, the others keep what they know -----

  /** Only `id` moves, and nothing already published changes. */
  ghost predicate Frame(s: State, s': State, id: Id)
  {
    && s'.live == s.live && s'.done == s.done && s'.timedOut == s.timedOut && s'.approvals == s.approvals
    && s'.pc.Keys == s.pc.Keys + {id} && (forall x :: x in s.pc && x != id ==> s'.pc[x] == s.pc[x])
    && (forall x :: x != id ==> (x in s'.futures <==> x in s.futures) && (x in s'.status <==> x in s.status))
    && (forall x :: x in s.status && x != id ==> s'.status[x] == s.status[x])
    && (Consistent(s, id) ==> Consistent(s', id))
    && Preserves(s, s') && Records(s, s', id)
  }

  /** The only call recorded is one the task is now making; the only checkpoint written is the current state. */
  ghost predicate Records(s: State, s': State, id: Id)
  {
    && (s'.called == s.called || (id in s'.pc && s'.pc[id].Calling? && s'.called == s.called + {id}))
    && (s'.checkpoint == s.checkpoint || s'.checkpoint == Snapshot(s', Active))
  }

  /** Published statuses, pointers and branch decisions are final. */
  ghost predicate Preserves(s: State, s': State)
  {
    && (forall x :: x in s.futures ==> x in s'.futures && s'.futures[x] == s.futures[x])
    && (forall x :: x in s.futures && x in s.status ==> x in s'.status && s'.status[x] == s.status[x])
    && (forall x :: x in s.futures ==> (x in s'.decisions <==> x in s.decisions))
    && (forall x :: x in s.futures && x in s.decisions ==> s'.decisions[x] == s.decisions[x])
  }

  lemma JustifiedKept(c: Config, s: State, s': State, id: Id)
    requires id in c.steps && Preserves(s, s') && s'.approvals == s.approvals
    ensures Released(c, s, id) ==> Released(c, s', id)
    ensures forall n: nat :: Obtained(c, s, id, n) ==> Obtained(c, s', id, n)
  {
    if Released(c, s, id) && Activated(c, s, id) {
      var ctrl :| ctrl in Controllers(c, id) && ctrl in s.decisions && id in s.decisions[ctrl];
      assert ctrl in s.futures;
    }
    forall n: nat | Obtained(c, s, id, n) ensures Obtained(c, s', id, n) {
      var actions := StepActions(c, id);
      forall i | 0 <= i < n && actions[i].Await? ensures PublishedOk(s', actions[i].id) {
        assert PublishedOk(s, actions[i].id);
      }
    }
  }

  lemma TaskKept(c: Config, s: State, s': State, id: Id, x: Id)
    requires x in c.steps && x in s.pc && TaskInv(c, s, x) && Frame(s, s', id) && x != id
    ensures TaskInv(c, s', x)
  {
    JustifiedKept(c, s, s', x);
  }

  /** `id` moved to a place it has a right to be in, and disturbed nothing. */
  ghost predicate Moves(c: Config, s: State, s': State, id: Id)
  {
    id in c.steps && Frame(s, s', id) && TaskInv(c, s', id)
  }

  lemma PublishMoves(
      c: Config, s: State, id: Id, step: M.Step, status: Status, ptr: Pointer, selected: set<Id>, resolves: bool)
    requires id in c.steps && id in s.pc && id !in s.futures
    ensures Moves(c, s, Publish(s, id, step, status, ptr, selected, resolves), id)
  {
  }

  /** `s'` differs from `s` only in the place of `id` and in bookkeeping no other task's knowledge depends on. */
  ghost predicate OnlyPc(s: State, s': State, id: Id)
  {
    && id in s'.pc && s'.pc == s.pc[id := s'.pc[id]]
    && s'.live == s.live && s'.done == s.done && s'.timedOut == s.timedOut && s'.approvals == s.approvals
    && s'.status == s.status && s'.futures == s.futures && s'.decisions == s.decisions
    && Records(s, s', id)
  }

  lemma OnlyPcKeeps(c: Config, s: State, s': State, id: Id)
    requires id in c.steps && id in s.pc && OnlyPc(s, s', id)
    ensures Frame(s, s', id)
    ensures Released(c, s, id) ==> Released(c, s', id)
    ensures forall n: nat :: Obtained(c, s, id, n) ==> Obtained(c, s', id, n)
  {
    JustifiedKept(c, s, s', id);
  }

  lemma ResolvingMoves(c: Config, s: State, s': State, id: Id)
    requires id in c.steps && id in s.pc && id !in s.futures && OnlyPc(s, s', id) && Released(c, s, id)
    requires s'.pc[id] == Resolving(StepActions(c, id))
    ensures Moves(c, s, s', id)
  {
    OnlyPcKeeps(c, s, s', id);
  }

  lemma GateOpens(c: Config, s: State, id: Id)
    requires id in c.steps && Controllers(c, id) <= s.futures.Keys && GateOutcome(c, s, id) == None
    ensures Released(c, s, id)
  {
  }

  lemma GateMoves(c: Config, s: State, id: Id, ptr: Pointer)
    requires id in c.steps && id in s.pc && id !in s.futures && Controllers(c, id) <= s.futures.Keys
    ensures Moves(c, s, PassGate(c, s, id, ptr), id)
  {
    var step := c.steps[id];
    match GateOutcome(c, s, id) {
      case None =>
        GateOpens(c, s, id);
        ResolvingMoves(c, s, s.(pc := s.pc[id := Resolving(StepActions(c, id))]), id);
      case Some(status) =>
        FailureMoves(c, s, id, step, status, ptr);
        PublishMoves(c, s, id, step, status, ptr, {}, false);
    }
  }

  lemma FailureMoves(c: Config, s: State, id: Id, step: M.Step, status: Status, ptr: Pointer)
    requires id in c.steps && id in s.pc && id !in s.futures
    ensures Moves(c, s, PublishFailure(s, id, step, status, ptr), id)
  {
    var selected := if step.branching.Some? then Targets(step.branching.value.onError) else {};
    PublishMoves(c, s, id, step, status, ptr, selected, true);
  }

  lemma SuccessMoves(c: Config, s: State, id: Id, step: M.Step, ptr: Pointer, condition: Option<bool>)
    requires id in c.steps && id in s.pc && id !in s.futures
    ensures Moves(c, s, PublishSuccess(s, id, step, ptr, condition), id)
  {
    FailureMoves(c, s, id, step, Error, ptr);
    PublishMoves(c, s, id, step, Ok, ptr, {}, true);
    if step.branching.Some? && condition.Some? {
      var b := step.branching.value;
      PublishMoves(c, s, id, step, Ok, ptr, Targets(if condition.value then b.onTrue else b.onFalse), true);
    }
  }

  lemma ResolveMoves(c: Config, s: State, id: Id, ptr: Pointer, loads: bool)
    requires id in c.steps && id in s.pc && s.pc[id].Resolving? && s.pc[id].pending != []
    requires StatusInv(c, s) && TaskInv(c, s, id)
    ensures Moves(c, s, ResolveNext(c, s, id, ptr, loads), id)
  {
    if Succeeds(s, s.pc[id].pending[0], loads) {
      AdvanceMoves(c, s, At(s, id, Resolving(s.pc[id].pending[1..])), id);
    } else {
      FailureMoves(c, s, id, c.steps[id], Error, ptr);
    }
  }

  lemma AdvanceMoves(c: Config, s: State, s': State, id: Id)
    requires id in c.steps && id in s.pc && s.pc[id].Resolving? && s.pc[id].pending != [] && TaskInv(c, s, id)
    requires OnlyPc(s, s', id) && s'.pc[id] == Resolving(s.pc[id].pending[1..])
    requires var a := s.pc[id].pending[0]; a != TooDeep && (a.Await? ==> PublishedOk(s, a.id))
    ensures Moves(c, s, s', id)
  {
    var actions := StepActions(c, id);
    var pending := s.pc[id].pending;
    var n := |actions| - |pending|;
    assert pending[0] == actions[n] && pending[1..] == actions[n + 1..];
    assert Obtained(c, s, id, n + 1);
    OnlyPcKeeps(c, s, s', id);
  }

  /** A task that keeps its knowledge and only changes its place in the attempt loop. */
  lemma AttemptMoves(c: Config, s: State, s': State, id: Id)
    requires id in c.steps && id in s.pc && id !in s.futures && Justified(c, s, id)
    requires OnlyPc(s, s', id) && s'.pc[id].Attempting()
    requires 1 <= s'.pc[id].attempt <= c.maxAttempts && (s'.pc[id].WantsTool? ==> id in c.toolKey)
    requires s'.pc[id].BackingOff? ==> s'.pc[id].attempt < c.maxAttempts
    ensures Moves(c, s, s', id)
  {
    OnlyPcKeeps(c, s, s', id);
  }

  lemma ReplayMoves(c: Config, s: State, s': State, id: Id)
    requires id in c.steps && id in s.pc && id in s.futures && id in s.status
    requires OnlyPc(s, s', id) && s'.pc[id] == Finished
    ensures Moves(c, s, s', id)
  {
  }

  lemma WaitMoves(c: Config, s: State, s': State, id: Id)
    requires id in c.steps && id in s.pc && id !in s.futures
    requires OnlyPc(s, s', id) && s'.pc[id] == AwaitingControllers
    ensures Moves(c, s, s', id)
  {
  }

  lemma AfterRelease(c: Config, s: State, s': State, id: Id)
    requires id in c.steps && Moves(c, Release(c, s, id), s', id)
    ensures Moves(c, s, s', id)
  {
    FrameIgnoresSlots(s, Release(c, s, id), s', id);
  }

  lemma FrameIgnoresSlots(s: State, r: State, s': State, id: Id)
    requires Frame(r, s', id) && r == s.(globalFree := r.globalFree, toolFree := r.toolFree)
    ensures Frame(s, s', id)
  {
  }

  lemma StartMoves(c: Config, s: State, id: Id, ptr: Pointer)
    requires id in c.steps && id in s.pc && s.pc[id] == Queued && TaskInv(c, s, id)
    ensures Moves(c, s, StartTask(c, s, id, ptr), id)
  {
    if id in s.status && s.status[id].status.Terminal() {
      ReplayMoves(c, s, At(s, id, Finished), id);
    } else if Controllers(c, id) != {} {
      WaitMoves(c, s, At(s, id, AwaitingControllers), id);
    } else {
      GateMoves(c, s, id, ptr);
    }
  }

  lemma GiveUpMoves(c: Config, s: State, id: Id, ptr: Pointer)
    requires id in c.steps && id in s.pc && id !in s.futures
    ensures Moves(c, s, PublishFailure(Release(c, s, id), id, c.steps[id], Error, ptr), id)
  {
    FailureMoves(c, Release(c, s, id), id, c.steps[id], Error, ptr);
    AfterRelease(c, s, PublishFailure(Release(c, s, id), id, c.steps[id], Error, ptr), id);
  }

  lemma FailCallMoves(c: Config, s: State, id: Id, ptr: Pointer, retryable: bool)
    requires id in c.steps && id in s.pc && s.pc[id].Calling? && TaskInv(c, s, id)
    ensures Moves(c, s, FailCall(c, s, id, ptr, retryable), id)
  {
    if retryable && s.pc[id].attempt < c.maxAttempts {
      AttemptMoves(c, s, At(s, id, BackingOff(s.pc[id].attempt)), id);
    } else {
      GiveUpMoves(c, s, id, ptr);
    }
  }

  lemma AttemptStepMoves(c: Config, s: State, id: Id, act: Act)
    requires TaskEnabled(c, s, id, act) && s.pc[id].Attempting() && TaskInv(c, s, id)
    ensures Moves(c, s, TaskStep(c, s, id, act), id)
  {
    if act.Return? {
      SuccessMoves(c, Release(c, s, id), id, c.steps[id], act.ptr, act.condition);
      AfterRelease(c, s, PublishSuccess(Release(c, s, id), id, c.steps[id], act.ptr, act.condition), id);
    } else if act.Raise? {
      FailCallMoves(c, s, id, act.ptr, act.retryable);
    } else {
      AttemptMoves(c, s, TaskStep(c, s, id, act), id);
    }
  }

  lemma ArgumentsMove(c: Config, s: State, id: Id, act: Act)
    requires act.CheckArguments? && ValidConfig(c) && TaskEnabled(c, s, id, act) && TaskInv(c, s, id)
    ensures Moves(c, s, TaskStep(c, s, id, act), id)
  {
    if act.valid {
      AttemptMoves(c, s, At(s, id, WantsGlobal(1)), id);
    } else {
      FailureMoves(c, s, id, c.steps[id], Error, act.ptr);
    }
  }

  lemma TaskMoves(c: Config, s: State, id: Id, act: Act)
    requires TaskEnabled(c, s, id, act) && ValidConfig(c) && StatusInv(c, s) && TaskInv(c, s, id)
    ensures Moves(c, s, TaskStep(c, s, id, act), id)
  {
    if s.pc[id].Attempting() {
      AttemptStepMoves(c, s, id, act);
    } else if act.Persist? {
      PersistMoves(c, s, id);
    } else {
      EntryMoves(c, s, id, act);
    }
  }

  lemma PersistMoves(c: Config, s: State, id: Id)
    requires TaskEnabled(c, s, id, Persist) && StatusInv(c, s) && TaskInv(c, s, id)
    ensures Moves(c, s, TaskStep(c, s, id, Persist), id)
  {
    ReplayMoves(c, s, At(s.(checkpoint := Snapshot(s, Active)), id, Finished), id);
  }

  lemma EntryMoves(c: Config, s: State, id: Id, act: Act)
    requires TaskEnabled(c, s, id, act) && ValidConfig(c) && StatusInv(c, s) && TaskInv(c, s, id)
    requires !s.pc[id].Attempting() && !act.Persist?
    ensures Moves(c, s, TaskStep(c, s, id, act), id)
  {
    if act.Start? {
      StartMoves(c, s, id, act.ptr);
    } else if act.Gate? {
      GateMoves(c, s, id, act.ptr);
    } else if act.Resolve? {
      ResolveMoves(c, s, id, act.ptr, act.loads);
    } else {
      ArgumentsMove(c, s, id, act);
    }
  }

  // ----- Slots -----

  lemma GlobalHoldersAfter(pc: map<Id, Pc>, id: Id, p: Pc)
    requires id in pc
    ensures |GlobalHolders(pc[id := p])|
         == |GlobalHolders(pc)| - (if pc[id].HoldsGlobal() then 1 else 0) + (if p.HoldsGlobal() then 1 else 0)
  {
    assert GlobalHolders(pc[id := p]) == GlobalHolders(pc) - {id} + if p.HoldsGlobal() then {id} else {};
  }

  lemma ToolHoldersAfter(c: Config, pc: map<Id, Pc>, id: Id, p: Pc, k: string)
    requires id in pc
    ensures |ToolHolders(c, pc[id := p], k)|
         == if Limited(c, id, k)
            then |ToolHolders(c, pc, k)| - Held(pc[id].HoldsTool()) + Held(p.HoldsTool())
            else |ToolHolders(c, pc, k)|
  {
    var before, after := ToolHolders(c, pc, k), ToolHolders(c, pc[id := p], k);
    if Limited(c, id, k) {
      assert after == before - {id} + if p.HoldsTool() then {id} else {};
    } else {
      assert after == before;
    }
  }

  /** The counters moved by exactly the slots `id` took or gave back. */
  ghost predicate SlotDelta(c: Config, s: State, s': State, id: Id)
    requires id in c.steps && id in s.pc
  {
    && id in s'.pc && s'.pc == s.pc[id := s'.pc[id]] && s'.toolFree.Keys == s.toolFree.Keys
    && s'.globalFree >= 0
    && s'.globalFree == s.globalFree + Held(s.pc[id].HoldsGlobal()) - Held(s'.pc[id].HoldsGlobal())
    && forall k :: k in s.toolFree ==>
         && s'.toolFree[k] >= 0
         && s'.toolFree[k] == if Limited(c, id, k)
                              then s.toolFree[k] + Held(s.pc[id].HoldsTool()) - Held(s'.pc[id].HoldsTool())
                              else s.toolFree[k]
  }

  function Held(holds: bool): int { if holds then 1 else 0 }

  lemma SlotKept(c: Config, s: State, s': State, id: Id)
    requires s.pc.Keys == c.steps.Keys && id in s.pc && SlotInv(c, s) && SlotDelta(c, s, s', id)
    ensures s'.pc.Keys == c.steps.Keys && SlotInv(c, s')
  {
    GlobalHoldersAfter(s.pc, id, s'.pc[id]);
    forall k | k in s.toolFree ensures s'.toolFree[k] + |ToolHolders(c, s'.pc, k)| == Slots(c)[k] {
      ToolHoldersAfter(c, s.pc, id, s'.pc[id], k);
    }
  }

  ghost predicate CountersValid(s: State)
  {
    s.globalFree >= 0 && forall k :: k in s.toolFree ==> s.toolFree[k] >= 0
  }

  lemma StillDelta(c: Config, s: State, s': State, id: Id)
    requires id in c.steps && id in s.pc && CountersValid(s) && !s.pc[id].HoldsGlobal()
    requires Still(s, s', id)
    ensures SlotDelta(c, s, s', id)
  {
  }

  lemma ReturnedDelta(c: Config, s: State, s': State, id: Id)
    requires id in c.steps && id in s.pc && CountersValid(s) && s.pc[id].HoldsTool()
    requires EndsTask(Release(c, s, id), s', id)
    ensures SlotDelta(c, s, s', id)
  {
  }

  lemma FailCallSlots(c: Config, s: State, id: Id, ptr: Pointer, retryable: bool)
    requires id in c.steps && id in s.pc && s.pc[id].Calling? && CountersValid(s)
    ensures SlotDelta(c, s, FailCall(c, s, id, ptr, retryable), id)
  {
    if !(retryable && s.pc[id].attempt < c.maxAttempts) {
      ReturnedDelta(c, s, PublishFailure(Release(c, s, id), id, c.steps[id], Error, ptr), id);
    }
  }

  lemma GlobalTaken(c: Config, s: State, id: Id)
    requires id in c.steps && id in s.pc && CountersValid(s) && s.pc[id].WantsGlobal? && s.globalFree > 0
    ensures SlotDelta(c, s, AcquireGlobal(c, s, id), id)
  {
  }

  lemma ToolTaken(c: Config, s: State, id: Id)
    requires id in c.steps && id in s.pc && CountersValid(s) && s.pc[id].WantsTool?
    requires id in c.toolKey && c.toolKey[id] in s.toolFree && s.toolFree[c.toolKey[id]] > 0
    ensures SlotDelta(c, s, AcquireTool(c, s, id), id)
  {
  }

  lemma BothGivenBack(c: Config, s: State, id: Id)
    requires id in c.steps && id in s.pc && CountersValid(s) && s.pc[id].BackingOff?
    ensures SlotDelta(c, s, At(Release(c, s, id), id, WantsGlobal(s.pc[id].attempt + 1)), id)
  {
  }

  lemma AttemptSlots(c: Config, s: State, id: Id, act: Act)
    requires TaskEnabled(c, s, id, act) && CountersValid(s) && s.pc[id].Attempting()
    ensures SlotDelta(c, s, TaskStep(c, s, id, act), id)
  {
    match act {
      case TakeGlobal => GlobalTaken(c, s, id);
      case TakeTool => ToolTaken(c, s, id);
      case Return(ptr, condition) =>
        ReturnedDelta(c, s, PublishSuccess(Release(c, s, id), id, c.steps[id], ptr, condition), id);
      case Raise(ptr, retryable) => FailCallSlots(c, s, id, ptr, retryable);
      case Wake => BothGivenBack(c, s, id);
      case _ =>
    }
  }

  lemma TaskSlots(c: Config, s: State, id: Id, act: Act)
    requires TaskEnabled(c, s, id, act) && CountersValid(s)
    ensures SlotDelta(c, s, TaskStep(c, s, id, act), id)
  {
    if s.pc[id].Attempting() {
      AttemptSlots(c, s, id, act);
    } else {
      OutsideStill(c, s, id, act);
      StillDelta(c, s, TaskStep(c, s, id, act), id);
    }
  }

  lemma OutsideStill(c: Config, s: State, id: Id, act: Act)
    requires TaskEnabled(c, s, id, act) && !s.pc[id].Attempting()
    ensures Still(s, TaskStep(c, s, id, act), id)
  {
    match act {
      case Persist => assert Still(s, At(s.(checkpoint := Snapshot(s, Active)), id, Finished), id);
      case CheckArguments(ptr, valid) =>
        assert Still(s, At(s, id, WantsGlobal(1)), id);
      case _ =>
    }
  }

  /** What the events of one task leave alone. */
  lemma TaskIsLocal(c: Config, s: State, id: Id, act: Act)
    requires ValidConfig(c) && Inv(c, s) && TaskEnabled(c, s, id, act)
    ensures var s' := TaskStep(c, s, id, act);
            && s'.live && s'.done == s.done && s'.timedOut == s.timedOut
            && s'.pc.Keys == c.steps.Keys && forall x :: x in s.pc && x != id ==> s'.pc[x] == s.pc[x]
  {
    TaskKeepsInv(c, s, id, act);
  }

  // ----- The invariant holds throughout -----

  lemma TaskKeepsStatus(c: Config, s: State, s': State, id: Id)
    requires StatusInv(c, s) && id in s.pc && Moves(c, s, s', id) && !s.done && !s.timedOut
    ensures StatusInv(c, s')
  {
    forall x | x in c.steps ensures Consistent(s', x) {
      assert Consistent(s, x);
      if x != id && x in s.futures {
        assert x in s'.futures && s'.futures[x] == s.futures[x];
      }
    }
  }

  lemma TaskKeepsTasks(c: Config, s: State, s': State, id: Id)
    requires Inv(c, s) && s.live && id in s.pc && Moves(c, s, s', id) && StatusInv(c, s')
    ensures forall x :: x in s'.pc ==> TaskInv(c, s', x)
  {
    forall x | x in s'.pc ensures TaskInv(c, s', x) {
      if x != id {
        TaskKept(c, s, s', id, x);
      }
    }
  }

  lemma TaskKeepsCalls(c: Config, s: State, s': State, id: Id)
    requires Inv(c, s) && s.live && id in s.pc && Moves(c, s, s', id) && StatusInv(c, s')
    ensures forall x :: x in s'.called ==> x in s'.pc && Justified(c, s', x)
  {
    forall x | x in s'.called ensures x in s'.pc && Justified(c, s', x) {
      if x in s.called {
        JustifiedKept(c, s, s', x);
      }
    }
  }

  lemma TaskKeepsCheckpoint(c: Config, s: State, s': State, id: Id)
    requires Inv(c, s) && s.live && !s.done && id in s.pc && Moves(c, s, s', id) && StatusInv(c, s')
    ensures PersistedInv(s') && CheckpointInv(c, s')
  {
    forall x | x in s'.checkpoint.status && s'.checkpoint.status[x].status.Terminal()
      ensures x in s'.futures && x in s'.status && s'.status[x] == s'.checkpoint.status[x]
    {
      assert x in c.steps && Consistent(s', x);
    }
  }

  lemma TaskKeepsInv(c: Config, s: State, id: Id, act: Act)
    requires ValidConfig(c) && Inv(c, s) && TaskEnabled(c, s, id, act)
    ensures Inv(c, TaskStep(c, s, id, act)) && Frame(s, TaskStep(c, s, id, act), id)
  {
    var s' := TaskStep(c, s, id, act);
    TaskMoves(c, s, id, act);
    TaskSlots(c, s, id, act);
    SlotKept(c, s, s', id);
    TaskKeepsStatus(c, s, s', id);
    TaskKeepsTasks(c, s, s', id);
    TaskKeepsCalls(c, s, s', id);
    TaskKeepsCheckpoint(c, s, s', id);
  }

  lemma LaunchInv(c: Config, approvals: map<Id, M.Decision>, status: map<Id, Published>, decisions: map<Id, set<Id>>)
    requires ValidConfig(c) && status.Keys <= c.steps.Keys
    ensures Inv(c, Launch(c, approvals, status, decisions))
  {
    var s := Launch(c, approvals, status, decisions);
    NoHolders(c, s);
    forall id | id in c.steps ensures TaskInv(c, s, id) && Consistent(s, id) {
    }
  }

  lemma NoHolders(c: Config, s: State)
    requires forall id :: id in s.pc ==> !s.pc[id].HoldsGlobal()
    ensures GlobalHolders(s.pc) == {} && forall k :: ToolHolders(c, s.pc, k) == {}
  {
  }

  lemma TimeOutStatus(c: Config, s: State, pointers: map<Id, Pointer>)
    requires StatusInv(c, s) && c.steps.Keys - s.status.Keys <= pointers.Keys
    ensures StatusInv(c, MarkTimeouts(c, s, pointers)) && Preserves(s, MarkTimeouts(c, s, pointers))
    ensures c.steps.Keys <= MarkTimeouts(c, s, pointers).status.Keys
  {
    var s' := MarkTimeouts(c, s, pointers);
    forall x | x in c.steps ensures Consistent(s', x) {
      assert Consistent(s, x);
    }
  }

  lemma AllFinishedSlots(c: Config, s: State)
    requires s.pc.Keys == c.steps.Keys && (forall id :: id in s.pc ==> s.pc[id] == Finished)
    requires s.globalFree == c.globalLimit && s.toolFree == Slots(c)
    ensures SlotInv(c, s)
  {
    NoHolders(c, s);
  }

  lemma CallsStayJustified(c: Config, s: State, s': State)
    requires Inv(c, s) && s.live && s'.called == s.called && s'.pc.Keys == s.pc.Keys
    requires Preserves(s, s') && s'.approvals == s.approvals
    ensures forall x :: x in s'.called ==> x in s'.pc && x in c.steps && Justified(c, s', x)
  {
    forall x | x in s'.called ensures x in s'.pc && x in c.steps && Justified(c, s', x) {
      JustifiedKept(c, s, s', x);
    }
  }

  lemma TimeOutInv(c: Config, s: State, pointers: map<Id, Pointer>)
    requires Inv(c, s) && Enabled(c, s, TimeOut(pointers))
    ensures Inv(c, MarkTimeouts(c, s, pointers)) && Preserves(s, MarkTimeouts(c, s, pointers))
  {
    var s' := MarkTimeouts(c, s, pointers);
    TimeOutStatus(c, s, pointers);
    AllFinishedSlots(c, s');
    CallsStayJustified(c, s, s');
    SnapshotPersisted(c, s', Active);
    FinishedTasks(c, s');
  }

  /** A checkpoint that is the current state holds published outcomes only. */
  lemma SnapshotPersisted(c: Config, s: State, run: RunStatus)
    requires StatusInv(c, s) && s.checkpoint == Snapshot(s, run)
    ensures PersistedInv(s)
  {
    forall x | x in s.checkpoint.status && s.checkpoint.status[x].status.Terminal() ensures x in s.futures {
      assert Consistent(s, x);
    }
  }

  lemma FinishedTasks(c: Config, s: State)
    requires s.pc.Keys == c.steps.Keys && s.timedOut && c.steps.Keys <= s.status.Keys
    requires forall x :: x in s.pc ==> s.pc[x] == Finished
    ensures forall x :: x in s.pc ==> TaskInv(c, s, x)
  {
  }

  lemma CompleteInv(c: Config, s: State)
    requires Inv(c, s) && Enabled(c, s, Complete)
    ensures Inv(c, Step(c, s, Complete))
  {
    var s' := Step(c, s, Complete);
    CompleteTasks(c, s, s');
    CallsStayJustified(c, s, s');
    SnapshotPersisted(c, s', s'.checkpoint.run);
    CompleteCheckpoint(c, s);
  }

  lemma CompleteTasks(c: Config, s: State, s': State)
    requires Inv(c, s) && s.live && s'.pc == s.pc && s'.status == s.status && s'.futures == s.futures
    requires s'.timedOut == s.timedOut && forall id :: id in s.pc ==> s.pc[id] == Finished
    ensures StatusInv(c, s') && forall id :: id in s'.pc ==> TaskInv(c, s', id)
  {
    forall id | id in c.steps ensures TaskInv(c, s', id) && Consistent(s', id) {
      assert TaskInv(c, s, id) && Consistent(s, id);
    }
  }

  /** Without a paused step the final checkpoint covers every step. */
  lemma CompleteCheckpoint(c: Config, s: State)
    requires Inv(c, s) && Enabled(c, s, Complete)
    ensures CheckpointInv(c, Step(c, s, Complete))
  {
    forall id | id in c.steps ensures id in s.status {
      assert TaskInv(c, s, id);
    }
  }

  lemma StepKeepsInv(c: Config, s: State, e: Event)
    requires ValidConfig(c) && Inv(c, s) && Enabled(c, s, e)
    ensures Inv(c, Step(c, s, e))
  {
    match e {
      case Task(id, act) => TaskKeepsInv(c, s, id, act);
      case Complete => CompleteInv(c, s);
      case TimeOut(pointers) => TimeOutInv(c, s, pointers);
      case Crash =>
      case Resume(approvals) => LaunchInv(c, s.approvals + approvals, s.checkpoint.status, s.checkpoint.decisions);
    }
  }
}
