/**
  What the executor owes its callers beyond the invariant: every reference is waited for, calls
  are retried as often as the policy says, finished steps are on record, and the deadline, the
  end of a run and a resume leave exactly what they should.
 */
module ExecutorLaws {
  import opened Wrappers
  import opened Graph
  import opened Scheduler
  import opened SchedulerSafety
  import opened SchedulerRuns
  import opened SchedulerProgress
  import M = Macro

  // ----- Every reference is waited for -----

  lemma {:induction false} ReferencedIsAwaited(v: M.Value, depth: nat, limit: nat, d: Id)
    requires d in M.References(v)
    ensures Await(d) in Actions(v, depth, limit) || TooDeep in Actions(v, depth, limit)
    decreases v
  {
    if depth <= limit {
      match v
      case Str(text) =>
      case Dict(_, items) => AllReferencedAreAwaited(items, depth + 1, limit, d);
      case List(items) => AllReferencedAreAwaited(items, depth + 1, limit, d);
    }
  }

  lemma {:induction false} AllReferencedAreAwaited(items: seq<M.Value>, depth: nat, limit: nat, d: Id)
    requires d in M.AllReferences(items)
    ensures Await(d) in AllActions(items, depth, limit) || TooDeep in AllActions(items, depth, limit)
    decreases items
  {
    var init, last := items[..|items| - 1], items[|items| - 1];
    if d in M.AllReferences(init) {
      AllReferencedAreAwaited(init, depth, limit, d);
    } else {
      ReferencedIsAwaited(last, depth, limit, d);
    }
  }

  lemma JustifiedReferences(c: Config, s: State, id: Id, d: Id)
    requires id in c.steps && Justified(c, s, id) && d in M.AllReferences(M.Values(c.steps[id]))
    ensures PublishedOk(s, d)
  {
    var actions := StepActions(c, id);
    AllReferencedAreAwaited(M.Values(c.steps[id]), 0, c.resolutionDepth, d);
    var i :| 0 <= i < |actions| && (actions[i] == Await(d) || actions[i] == TooDeep);
    assert actions[i] != TooDeep;
  }

  /** When a tool is called, every step its arguments refer to, as the validator reads them, has published `ok`. */
  lemma CallsFollowReferences(
      c: Config, approvals: map<Id, M.Decision>, states: seq<State>, events: seq<Event>, n: nat, id: Id, d: Id)
    requires ValidConfig(c) && IsRun(c, approvals, states, events) && n < |events| && events[n] == Task(id, Call)
    requires id in c.steps && d in M.AllReferences(M.Values(c.steps[id]))
    ensures PublishedOk(states[n], d)
  {
    CallsAreJustified(c, approvals, states, events, n, id);
    JustifiedReferences(c, states[n], id, d);
  }

  // ----- Retries -----

  /** A failed call is tried again exactly when its error is retryable and attempts remain. */
  lemma RetriesExactly(c: Config, s: State, id: Id, act: Act)
    requires TaskEnabled(c, s, id, act) && act.Raise?
    ensures var s' := TaskStep(c, s, id, act);
      && id in s'.pc
      && (if act.retryable && s.pc[id].attempt < c.maxAttempts
          then s'.pc[id] == BackingOff(s.pc[id].attempt) && s'.status == s.status
          else s'.pc[id] == Persisting && id in s'.status && s'.status[id].status == Error)
  {
    if !(act.retryable && s.pc[id].attempt < c.maxAttempts) {
      ErrorPublished(Release(c, s, id), id, c.steps[id], act.ptr);
      GivesUp(c, s, id, act);
    }
  }

  lemma GivesUp(c: Config, s: State, id: Id, act: Act)
    requires TaskEnabled(c, s, id, act) && act.Raise? && !(act.retryable && s.pc[id].attempt < c.maxAttempts)
    ensures TaskStep(c, s, id, act) == PublishFailure(Release(c, s, id), id, c.steps[id], Error, act.ptr)
  {
  }

  lemma ErrorPublished(s: State, id: Id, step: M.Step, ptr: Pointer)
    ensures var s' := PublishFailure(s, id, step, Error, ptr);
      id in s'.pc && s'.pc[id] == Persisting && id in s'.status && s'.status[id].status == Error
  {
  }

  /** How many times the step's tool has been called. */
  ghost function CallCount(events: seq<Event>, id: Id, n: nat): nat
    requires n <= |events|
  {
    if n == 0 then 0 else CallCount(events, id, n - 1) + if events[n - 1] == Task(id, Call) then 1 else 0
  }

  /** The calls a task has made by the time it is there. */
  ghost predicate CallsAt(c: Config, pc: Pc, calls: nat)
  {
    match pc
    case Queued => calls == 0
    case AwaitingControllers => calls == 0
    case Resolving(_) => calls == 0
    case WantsGlobal(a) => calls == a - 1
    case WantsTool(a) => calls == a - 1
    case Holding(a) => calls == a - 1
    case Calling(a) => calls == a
    case BackingOff(a) => calls == a
    case Persisting => calls <= c.maxAttempts
    case Finished => calls <= c.maxAttempts
  }

  lemma OneStepCalls(c: Config, id: Id, p: Pc, q: Pc, calls: nat)
    requires id in c.steps && Successor(c, id, p, q) && CallsAt(c, p, calls)
    requires p.Attempting() ==> 1 <= p.attempt <= c.maxAttempts
    ensures CallsAt(c, q, if p.Holding? then calls + 1 else calls)
  {
  }

  lemma AttemptInRange(c: Config, s: State, id: Id)
    requires id in c.steps && id in s.pc && TaskInv(c, s, id) && s.pc[id].Attempting()
    ensures 1 <= s.pc[id].attempt <= c.maxAttempts
  {
  }

  lemma CallIsFromHolding(c: Config, s: State, id: Id, act: Act)
    requires TaskEnabled(c, s, id, act)
    ensures act.Call? <==> s.pc[id].Holding?
  {
  }

  lemma StepCalls(c: Config, s: State, e: Event, id: Id, calls: nat)
    requires ValidConfig(c) && Inv(c, s) && Enabled(c, s, e) && e.WithinExecution() && s.live
    requires id in c.steps && id in s.pc && CallsAt(c, s.pc[id], calls)
    requires CallsAt(c, Finished, calls)
    ensures id in Step(c, s, e).pc
    ensures CallsAt(c, Step(c, s, e).pc[id], if e == Task(id, Call) then calls + 1 else calls)
  {
    match e
    case Task(x, act) => TaskCalls(c, s, x, act, id, calls);
    case Complete =>
    case TimeOut(_) =>
  }

  lemma TaskCalls(c: Config, s: State, x: Id, act: Act, id: Id, calls: nat)
    requires ValidConfig(c) && Inv(c, s) && TaskEnabled(c, s, x, act) && id in c.steps && id in s.pc
    requires CallsAt(c, s.pc[id], calls)
    ensures id in TaskStep(c, s, x, act).pc
    ensures CallsAt(c, TaskStep(c, s, x, act).pc[id], if x == id && act.Call? then calls + 1 else calls)
  {
    TaskIsLocal(c, s, x, act);
    if x == id {
      ProgramOrder(c, s, id, act);
      CallIsFromHolding(c, s, id, act);
      assert TaskInv(c, s, id);
      if s.pc[id].Attempting() {
        AttemptInRange(c, s, id);
      }
      OneStepCalls(c, id, s.pc[id], TaskStep(c, s, id, act).pc[id], calls);
    }
  }

  lemma CallsBounded(c: Config, s: State, id: Id, calls: nat)
    requires ValidConfig(c) && Inv(c, s) && s.live && id in c.steps && id in s.pc && CallsAt(c, s.pc[id], calls)
    ensures calls <= c.maxAttempts
  {
    assert TaskInv(c, s, id);
    if s.pc[id].Attempting() {
      AttemptInRange(c, s, id);
    }
  }

  /**
    In one execution the calls of a step's tool are counted by its attempts, the first call being
    attempt one, and there are never more than the policy allows.
   */
  lemma {:induction false} CallsCounted(c: Config, states: seq<State>, events: seq<Event>, id: Id, n: nat)
    requires ValidConfig(c) && IsExecution(c, states, events) && n <= |events|
    requires id in c.steps && id in states[0].pc && states[0].pc[id] == Queued
    ensures Counted(c, states[n], id, CallCount(events, id, n))
  {
    if n == 0 {
      NothingCalledYet(c, states, events, id);
    } else {
      CallsCounted(c, states, events, id, n - 1);
      CallsCountedAt(c, states, events, id, n - 1);
    }
  }

  lemma NothingCalledYet(c: Config, states: seq<State>, events: seq<Event>, id: Id)
    requires IsExecution(c, states, events) && id in c.steps && id in states[0].pc && states[0].pc[id] == Queued
    ensures Counted(c, states[0], id, CallCount(events, id, 0))
  {
    assert CallCount(events, id, 0) == 0;
  }

  lemma {:induction false} ExecutionInv(c: Config, states: seq<State>, events: seq<Event>, n: nat)
    requires ValidConfig(c) && IsExecution(c, states, events) && n < |states|
    ensures Inv(c, states[n]) && states[n].live
  {
    if n > 0 {
      ExecutionInv(c, states, events, n - 1);
      ExecutionInvAt(c, states, events, n - 1);
    }
  }

  lemma ExecutionInvAt(c: Config, states: seq<State>, events: seq<Event>, n: nat)
    requires ValidConfig(c) && IsExecution(c, states, events) && n < |events| && Inv(c, states[n]) && states[n].live
    ensures Inv(c, states[n + 1]) && states[n + 1].live
  {
    assert StepAt(c, states, events, n);
    ExecutionKeeps(c, states[n], events[n]);
  }

  ghost predicate Counted(c: Config, s: State, id: Id, calls: nat)
  {
    id in c.steps && id in s.pc && CallsAt(c, s.pc[id], calls) && calls <= c.maxAttempts
  }

  lemma CallsCountedAt(c: Config, states: seq<State>, events: seq<Event>, id: Id, n: nat)
    requires ValidConfig(c) && IsExecution(c, states, events) && n < |events|
    requires Counted(c, states[n], id, CallCount(events, id, n))
    ensures Counted(c, states[n + 1], id, CallCount(events, id, n + 1))
  {
    assert StepAt(c, states, events, n);
    ExecutionInv(c, states, events, n);
    CountedStep(c, states[n], events[n], id, CallCount(events, id, n));
  }

  lemma CountedStep(c: Config, s: State, e: Event, id: Id, calls: nat)
    requires ValidConfig(c) && Inv(c, s) && s.live && Enabled(c, s, e) && e.WithinExecution()
    requires Counted(c, s, id, calls)
    ensures Counted(c, Step(c, s, e), id, if e == Task(id, Call) then calls + 1 else calls)
  {
    StepCalls(c, s, e, id, calls);
    ExecutionKeeps(c, s, e);
    CallsBounded(c, Step(c, s, e), id, if e == Task(id, Call) then calls + 1 else calls);
  }

  lemma ExecutionKeeps(c: Config, s: State, e: Event)
    requires ValidConfig(c) && Inv(c, s) && Enabled(c, s, e) && e.WithinExecution() && s.live
    ensures Inv(c, Step(c, s, e)) && Step(c, s, e).live
  {
    StepKeepsInv(c, s, e);
    if e.Task? {
      TaskIsLocal(c, s, e.id, e.act);
    }
  }

  // ----- What is on record -----

  /** The persisted row has the step's status and pointer. */
  ghost predicate OnRecord(s: State, id: Id)
  {
    id in s.status && id in s.checkpoint.status && s.checkpoint.status[id] == s.status[id]
  }

  /** Finished tasks are on record, and so is whatever a task that has not started finds. */
  ghost predicate DurableTask(s: State, id: Id)
    requires id in s.pc
  {
    (s.pc[id] == Finished ==> OnRecord(s, id)) && (s.pc[id] == Queued && id in s.status ==> OnRecord(s, id))
  }

  ghost predicate Durable(s: State)
  {
    s.live ==> forall id :: id in s.pc ==> DurableTask(s, id)
  }

  lemma OthersDurable(s: State, s': State, id: Id, x: Id)
    requires Frame(s, s', id) && x != id && x in s.pc && DurableTask(s, x)
    ensures DurableTask(s', x)
  {
  }

  lemma MoverDurable(c: Config, s: State, id: Id, act: Act)
    requires ValidConfig(c) && Inv(c, s) && TaskEnabled(c, s, id, act) && DurableTask(s, id)
    ensures id in TaskStep(c, s, id, act).pc && DurableTask(TaskStep(c, s, id, act), id)
  {
    var s' := TaskStep(c, s, id, act);
    ProgramOrder(c, s, id, act);
    assert TaskInv(c, s, id) && Consistent(s, id);
    if act.Start? && s'.pc[id] == Finished {
      StartFinishes(c, s, id, act.ptr);
    }
  }

  lemma StartFinishes(c: Config, s: State, id: Id, ptr: Pointer)
    requires id in c.steps && StartTask(c, s, id, ptr).pc[id] == Finished
    ensures id in s.status && s.status[id].status.Terminal()
    ensures StartTask(c, s, id, ptr).status == s.status && StartTask(c, s, id, ptr).checkpoint == s.checkpoint
  {
    if !(id in s.status && s.status[id].status.Terminal()) {
      OthersDoNotFinish(c, s, id, ptr);
    }
  }

  lemma OthersDoNotFinish(c: Config, s: State, id: Id, ptr: Pointer)
    requires id in c.steps && !(id in s.status && s.status[id].status.Terminal())
    ensures StartTask(c, s, id, ptr).pc[id] != Finished
  {
    if Controllers(c, id) == {} {
      assert StartTask(c, s, id, ptr) == PassGate(c, s, id, ptr);
    } else {
      assert StartTask(c, s, id, ptr) == At(s, id, AwaitingControllers);
    }
  }

  lemma TaskDurable(c: Config, s: State, id: Id, act: Act)
    requires ValidConfig(c) && Inv(c, s) && TaskEnabled(c, s, id, act) && Durable(s)
    ensures Durable(TaskStep(c, s, id, act))
  {
    var s' := TaskStep(c, s, id, act);
    TaskKeepsInv(c, s, id, act);
    MoverDurable(c, s, id, act);
    forall x | x in s'.pc ensures DurableTask(s', x) {
      if x != id {
        OthersDurable(s, s', id, x);
      }
    }
  }

  lemma StepDurable(c: Config, s: State, e: Event)
    requires ValidConfig(c) && Inv(c, s) && Enabled(c, s, e) && Durable(s)
    ensures Durable(Step(c, s, e))
  {
    match e
    case Task(id, act) => TaskDurable(c, s, id, act);
    case Complete => CompleteDurable(c, s);
    case TimeOut(pointers) => TimeOutExactly(c, s, pointers);
    case Crash =>
    case Resume(_) =>
  }

  lemma CompleteDurable(c: Config, s: State)
    requires Inv(c, s) && Enabled(c, s, Complete)
    ensures Durable(Step(c, s, Complete))
  {
    forall id | id in s.pc ensures id in s.status {
      assert TaskInv(c, s, id);
    }
  }

  /** In every state of every run a finished step's outcome is persisted: a crash loses unfinished work only. */
  lemma {:induction false} FinishedIsOnRecord(
      c: Config, approvals: map<Id, M.Decision>, states: seq<State>, events: seq<Event>, n: nat)
    requires ValidConfig(c) && IsRun(c, approvals, states, events) && n < |states|
    ensures Durable(states[n])
  {
    if n > 0 {
      FinishedIsOnRecord(c, approvals, states, events, n - 1);
      DurableAt(c, approvals, states, events, n - 1);
    }
  }

  lemma DurableAt(c: Config, approvals: map<Id, M.Decision>, states: seq<State>, events: seq<Event>, k: nat)
    requires ValidConfig(c) && IsRun(c, approvals, states, events) && k < |events| && Durable(states[k])
    ensures Durable(states[k + 1])
  {
    var s, e := RunStep(c, approvals, states, events, k);
    StepDurable(c, s, e);
  }

  // ----- The deadline, the end of a run, a resume -----

  /** The deadline makes errors of exactly the steps without a status, and persists everything. */
  lemma TimeOutExactly(c: Config, s: State, pointers: map<Id, Pointer>)
    requires c.steps.Keys - s.status.Keys <= pointers.Keys
    ensures var s' := MarkTimeouts(c, s, pointers);
      && (forall id :: id in s.status ==> id in s'.status && s'.status[id] == s.status[id])
      && (forall id :: id in c.steps && id !in s.status ==>
        id in s'.status && s'.status[id] == Published(Error, pointers[id]))
      && s'.checkpoint.status == s'.status && s'.checkpoint.decisions == s.decisions
  {
  }

  /** The final checkpoint is the published state; it awaits approval exactly when a step is paused. */
  lemma CompleteExactly(c: Config, s: State)
    requires Enabled(c, s, Complete)
    ensures var s' := Step(c, s, Complete);
      && s'.done && s'.checkpoint.status == s.status && s'.checkpoint.decisions == s.decisions
      && (s'.checkpoint.run == AwaitingApproval <==> exists id :: id in s.status && s.status[id].status == Paused)
      && (s'.checkpoint.run == Completed <==> forall id :: id in s.status ==> s.status[id].status != Paused)
  {
  }

  /** A resume starts from what was persisted; an approval given with it replaces the earlier one. */
  lemma ResumeExactly(c: Config, s: State, approvals: map<Id, M.Decision>)
    requires Enabled(c, s, Resume(approvals))
    ensures var s' := Step(c, s, Resume(approvals));
      && s'.status == s.checkpoint.status && s'.decisions == s.checkpoint.decisions
      && (forall id :: id in approvals ==> id in s'.approvals && s'.approvals[id] == approvals[id])
      && (forall id :: id in s.approvals && id !in approvals ==>
        id in s'.approvals && s'.approvals[id] == s.approvals[id])
      && (forall id :: id in c.steps ==> id in s'.pc && s'.pc[id] == Queued)
      && (forall id :: id in s'.futures <==>
            id in c.steps && id in s.checkpoint.status && s.checkpoint.status[id].status != Paused)
  {
  }

  /** A paused step that is approved goes on to its arguments instead of being replayed. */
  lemma ApprovedStepRuns(c: Config, s: State, id: Id, ptr: Pointer)
    requires TaskEnabled(c, s, id, Start(ptr)) && Controllers(c, id) == {} && !s.earlyExit
    requires id in s.status && s.status[id].status == Paused && id in s.approvals && s.approvals[id] == M.Approve
    ensures TaskStep(c, s, id, Start(ptr)).pc[id] == Resolving(StepActions(c, id))
  {
    assert GateOutcome(c, s, id) == None;
  }
}
