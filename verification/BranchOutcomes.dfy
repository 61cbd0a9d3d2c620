/**
  What each outcome of a step comes from: the status it is published with, the branch targets it
  selects and the early exit it raises, told by what happened and not by how the executor
  records it.
 */
module BranchOutcomes {
  import opened Wrappers
  import opened Graph
  import opened Scheduler
  import opened SchedulerSafety
  import opened SchedulerRuns
  import opened CircularWaits
  import M = Macro

  // ----- What ends a step -----

  /** No controller has to select the step, or one has. */
  ghost predicate Routed(c: Config, s: State, id: Id)
    requires id in c.steps
  {
    Controllers(c, id) == {} || exists ctrl ::
      ctrl in Controllers(c, id) && ctrl in s.decisions && id in s.decisions[ctrl]
  }

  /** The step would run, but its approval was refused. */
  ghost predicate Refused(c: Config, s: State, id: Id)
    requires id in c.steps
  {
    Routed(c, s, id) && !s.earlyExit && c.steps[id].approvalRequired && id in s.approvals && s.approvals[id] == M.Reject
  }

  /** The step would run, but its approval has not been given. */
  ghost predicate Awaiting(c: Config, s: State, id: Id)
    requires id in c.steps
  {
    Routed(c, s, id) && !s.earlyExit && c.steps[id].approvalRequired && id !in s.approvals
  }

  ghost predicate Publishes(c: Config, s: State, id: Id, act: Act)
    requires TaskEnabled(c, s, id, act)
  {
    s.pc[id] != Persisting && id in TaskStep(c, s, id, act).pc && TaskStep(c, s, id, act).pc[id] == Persisting
  }

  /** The status an outcome should have. */
  ghost function RightStatus(c: Config, s: State, id: Id, act: Act): Status
    requires id in c.steps
  {
    if act.Return? then (if c.steps[id].branching.None? || act.condition.Some? then Ok else Error)
    else if act.Start? || act.Gate? then
      if Refused(c, s, id) then Rejected else if Awaiting(c, s, id) then Paused else Skipped
    else Error
  }

  /** The event is a reason for `id` to select `t`. */
  ghost predicate Selects(c: Config, id: Id, s: State, act: Act, t: Id)
  {
    && id in c.steps && c.steps[id].branching.Some?
    && var b := c.steps[id].branching.value;
       match act
       case Return(_, condition) =>
         t in (if condition == Some(true) then b.onTrue else if condition == Some(false) then b.onFalse else b.onError)
       case Raise(_, _) => t in b.onError
       case Resolve(_, _) => t in b.onError
       case CheckArguments(_, valid) => !valid && t in b.onError
       case Start(_) => Refused(c, s, id) && t in b.onError
       case Gate(_) => Refused(c, s, id) && t in b.onError
       case TakeGlobal => false
       case TakeTool => false
       case Call => false
       case Wake => false
       case Persist => false
  }

  /** The targets the event is a reason to select. */
  ghost function Chosen(c: Config, id: Id, s: State, act: Act): set<Id>
    requires id in c.steps
  {
    set t | t in c.steps[id].Targets() && Selects(c, id, s, act, t)
  }

  /**
    Outcome, future, branch decision and early exit are recorded together. Early exit is raised by an
    outcome that could have selected a target and did not.
   */
  ghost predicate Recorded(
      s: State, s': State, id: Id, step: M.Step, outcome: Published, chosen: set<Id>, resolves: bool)
  {
    && s'.status == s.status[id := outcome]
    && s'.futures == (if id in s.futures then s.futures else s.futures[id := outcome.pointer])
    && s'.decisions == (if step.branching.Some? then s.decisions[id := chosen] else s.decisions)
    && (s'.earlyExit <==>
          s.earlyExit || (resolves && step.branching.Some? && step.branching.value.allowEarlyExit && chosen == {}))
  }

  /** The pointer under which the event stored what it publishes. */
  ghost function PointerOf(act: Act): Pointer
  {
    match act
    case Start(ptr) => ptr
    case Gate(ptr) => ptr
    case Resolve(ptr, _) => ptr
    case CheckArguments(ptr, _) => ptr
    case Return(ptr, _) => ptr
    case Raise(ptr, _) => ptr
    case _ => 0
  }

  ghost predicate PublishedRightly(c: Config, s: State, s': State, id: Id, act: Act)
    requires id in c.steps
  {
    var status := RightStatus(c, s, id, act);
    var outcome := Published(status, PointerOf(act));
    Recorded(s, s', id, c.steps[id], outcome, Chosen(c, id, s, act), status !in {Skipped, Paused})
  }

  // ----- The executor does so -----

  lemma PublishRecords(s: State, id: Id, step: M.Step, status: Status, ptr: Pointer, selected: set<Id>, resolves: bool)
    ensures Recorded(
      s, Publish(s, id, step, status, ptr, selected, resolves), id, step, Published(status, ptr), selected, resolves)
  {
  }

  lemma FailureRecords(s: State, id: Id, step: M.Step, status: Status, ptr: Pointer)
    ensures var chosen := if step.branching.Some? then Targets(step.branching.value.onError) else {};
      Recorded(s, PublishFailure(s, id, step, status, ptr), id, step, Published(status, ptr), chosen, true)
  {
    var chosen := if step.branching.Some? then Targets(step.branching.value.onError) else {};
    PublishRecords(s, id, step, status, ptr, chosen, true);
  }

  /** What goes wrong selects the fallback targets. */
  lemma ChosenOnError(c: Config, id: Id, s: State, act: Act)
    requires id in c.steps
    requires act.Raise? || act.Resolve? || (act.CheckArguments? && !act.valid)
          || (act.Return? && act.condition.None?) || ((act.Start? || act.Gate?) && Refused(c, s, id))
    ensures Chosen(c, id, s, act) == if c.steps[id].branching.Some?
      then Targets(c.steps[id].branching.value.onError) else {}
  {
  }

  lemma FailureIsRight(c: Config, s: State, id: Id, act: Act, ptr: Pointer)
    requires id in c.steps && RightStatus(c, s, id, act) == Error && ptr == PointerOf(act)
    requires act.Raise? || act.Resolve? || (act.CheckArguments? && !act.valid) || (act.Return? && act.condition.None?)
    ensures PublishedRightly(c, s, PublishFailure(s, id, c.steps[id], Error, ptr), id, act)
  {
    ChosenOnError(c, id, s, act);
    FailureRecords(s, id, c.steps[id], Error, ptr);
  }

  lemma RoutedIffActivated(c: Config, s: State, id: Id)
    requires id in c.steps
    ensures Routed(c, s, id) <==> Controllers(c, id) == {} || Activated(c, s, id)
  {
  }

  /** The gate lets a step through exactly when it is routed, not exited, and approved if it must be. */
  lemma GateIsRight(c: Config, s: State, id: Id)
    requires id in c.steps
    ensures GateOutcome(c, s, id) ==
      if Refused(c, s, id) then Some(Rejected)
      else if Awaiting(c, s, id) then Some(Paused)
      else if Routed(c, s, id) && !s.earlyExit then None else Some(Skipped)
    ensures GateOutcome(c, s, id) == None <==>
      && Routed(c, s, id) && !s.earlyExit
      && (c.steps[id].approvalRequired ==> id in s.approvals && s.approvals[id] == M.Approve)
  {
    RoutedIffActivated(c, s, id);
  }

  lemma RefusalIsRight(c: Config, s: State, id: Id, act: Act)
    requires id in c.steps && (act.Start? || act.Gate?) && Refused(c, s, id)
    ensures PublishedRightly(c, s, PassGate(c, s, id, act.ptr), id, act)
  {
    GateIsRight(c, s, id);
    ChosenOnError(c, id, s, act);
    FailureRecords(s, id, c.steps[id], Rejected, act.ptr);
  }

  lemma IdleIsRight(c: Config, s: State, id: Id, act: Act)
    requires id in c.steps && (act.Start? || act.Gate?) && !Refused(c, s, id) && GateOutcome(c, s, id).Some?
    ensures PublishedRightly(c, s, PassGate(c, s, id, act.ptr), id, act)
  {
    var status := GateOutcome(c, s, id).value;
    IdleStatus(c, s, id, act);
    IdleChoosesNone(c, id, s, act);
    IdleGate(c, s, id, act.ptr, status);
    PublishRecords(s, id, c.steps[id], status, act.ptr, {}, false);
  }

  lemma IdleStatus(c: Config, s: State, id: Id, act: Act)
    requires id in c.steps && (act.Start? || act.Gate?) && !Refused(c, s, id) && GateOutcome(c, s, id).Some?
    ensures GateOutcome(c, s, id) == Some(RightStatus(c, s, id, act)) && RightStatus(c, s, id, act) in {Skipped, Paused}
  {
    GateIsRight(c, s, id);
  }

  lemma IdleGate(c: Config, s: State, id: Id, ptr: Pointer, status: Status)
    requires id in c.steps && GateOutcome(c, s, id) == Some(status) && status != Rejected
    ensures PassGate(c, s, id, ptr) == Publish(s, id, c.steps[id], status, ptr, {}, false)
  {
  }

  lemma GateIsPublishedRightly(c: Config, s: State, id: Id, act: Act)
    requires id in c.steps && id in s.pc && (act.Start? || act.Gate?)
    requires PassGate(c, s, id, act.ptr).pc[id] == Persisting
    ensures PublishedRightly(c, s, PassGate(c, s, id, act.ptr), id, act)
  {
    if Refused(c, s, id) {
      RefusalIsRight(c, s, id, act);
    } else {
      assert GateOutcome(c, s, id).Some?;
      IdleIsRight(c, s, id, act);
    }
  }

  lemma ReturnIsRight(c: Config, s: State, id: Id, act: Act)
    requires id in c.steps && act.Return?
    ensures PublishedRightly(c, s, PublishSuccess(s, id, c.steps[id], act.ptr, act.condition), id, act)
  {
    if c.steps[id].branching.None? {
      PublishRecords(s, id, c.steps[id], Ok, act.ptr, {}, true);
    } else if act.condition.None? {
      FailureIsRight(c, s, id, act, act.ptr);
    } else {
      ConditionIsRight(c, s, id, act);
    }
  }

  lemma ConditionIsRight(c: Config, s: State, id: Id, act: Act)
    requires id in c.steps && act.Return? && c.steps[id].branching.Some? && act.condition.Some?
    ensures PublishedRightly(c, s, PublishSuccess(s, id, c.steps[id], act.ptr, act.condition), id, act)
  {
    var b := c.steps[id].branching.value;
    var selected := Targets(if act.condition.value then b.onTrue else b.onFalse);
    assert selected == Chosen(c, id, s, act);
    PublishRecords(s, id, c.steps[id], Ok, act.ptr, selected, true);
  }

  /** Every outcome is published with the right status, branch decision and early exit. */
  lemma OutcomesAreRight(c: Config, s: State, id: Id, act: Act)
    requires TaskEnabled(c, s, id, act) && Publishes(c, s, id, act)
    ensures PublishedRightly(c, s, TaskStep(c, s, id, act), id, act)
  {
    if act.Start? || act.Gate? {
      GateIsPublishedRightly(c, s, id, act);
    } else if act.Return? {
      SlotsDoNotMatter(c, s, id, act);
      ReturnIsRight(c, Release(c, s, id), id, act);
    } else if act.Raise? {
      SlotsDoNotMatter(c, s, id, act);
      FailureIsRight(c, Release(c, s, id), id, act, act.ptr);
    } else {
      FailureIsRight(c, s, id, act, act.ptr);
    }
  }

  /**
    Whatever ends a step records as selected exactly the targets of the list the condition or the
    failure names; a skip or a pause selects none.
   */
  lemma DecisionsAreRight(c: Config, s: State, id: Id, act: Act, t: Id)
    requires TaskEnabled(c, s, id, act) && Publishes(c, s, id, act) && c.steps[id].branching.Some?
    ensures var s' := TaskStep(c, s, id, act);
      && id in s'.decisions && (t in s'.decisions[id] <==> Selects(c, id, s, act, t))
      && (RightStatus(c, s, id, act) in {Skipped, Paused} ==> s'.decisions[id] == {})
  {
    PublishedDecisions(c, s, id, act);
    ChosenIff(c, id, s, act, t);
    IdleChoosesNone(c, id, s, act);
  }

  lemma ChosenIff(c: Config, id: Id, s: State, act: Act, t: Id)
    requires id in c.steps
    ensures t in Chosen(c, id, s, act) <==> Selects(c, id, s, act, t)
  {
  }

  lemma IdleChoosesNone(c: Config, id: Id, s: State, act: Act)
    requires id in c.steps
    ensures RightStatus(c, s, id, act) in {Skipped, Paused} ==> Chosen(c, id, s, act) == {}
  {
  }


  lemma SlotsDoNotMatter(c: Config, s: State, id: Id, act: Act)
    requires id in c.steps && (act.Return? || act.Raise?)
    ensures var r := Release(c, s, id);
      && RightStatus(c, r, id, act) == RightStatus(c, s, id, act) && Chosen(c, id, r, act) == Chosen(c, id, s, act)
      && r.decisions == s.decisions && r.earlyExit == s.earlyExit && r.status == s.status && r.futures == s.futures
  {
    var r := Release(c, s, id);
    forall t ensures Selects(c, id, r, act, t) <==> Selects(c, id, s, act, t) {
    }
  }

  // ----- What publishes nothing records nothing -----

  lemma GateQuiet(c: Config, s: State, id: Id, ptr: Pointer)
    requires id in c.steps && PassGate(c, s, id, ptr).pc[id] != Persisting
    ensures PassGate(c, s, id, ptr) == At(s, id, Resolving(StepActions(c, id)))
  {
    assert GateOutcome(c, s, id).None?;
  }

  lemma StartQuiet(c: Config, s: State, id: Id, ptr: Pointer)
    requires id in c.steps && StartTask(c, s, id, ptr).pc[id] != Persisting
    ensures Quiet(s, StartTask(c, s, id, ptr))
  {
    if id in s.status && s.status[id].status.Terminal() {
      ReplayQuiet(s, id, s.status[id].pointer);
    } else if Controllers(c, id) != {} {
      AtQuiet(s, id, AwaitingControllers);
    } else {
      GateQuiet(c, s, id, ptr);
      AtQuiet(s, id, Resolving(StepActions(c, id)));
    }
  }

  /** Nothing was published, decided or exited. */
  ghost predicate Quiet(s: State, s': State)
  {
    s'.decisions == s.decisions && s'.status == s.status && s'.earlyExit == s.earlyExit
  }

  lemma AtQuiet(s: State, id: Id, pc: Pc)
    ensures Quiet(s, At(s, id, pc))
  {
  }

  lemma ReplayQuiet(s: State, id: Id, ptr: Pointer)
    ensures Quiet(s, Replay(s, id, ptr))
  {
  }

  lemma QuietEvents(c: Config, s: State, id: Id, act: Act)
    requires TaskEnabled(c, s, id, act) && !Publishes(c, s, id, act)
    ensures Quiet(s, TaskStep(c, s, id, act))
  {
    if act.Start? {
      StartQuiet(c, s, id, act.ptr);
    } else if act.Gate? {
      GateQuiet(c, s, id, act.ptr);
    } else if act.Resolve? {
      assert Succeeds(s, s.pc[id].pending[0], act.loads);
    } else if act.Raise? {
      assert TaskStep(c, s, id, act) == At(s, id, BackingOff(s.pc[id].attempt));
    } else if act.CheckArguments? {
      assert TaskStep(c, s, id, act) == At(s, id, WantsGlobal(1));
    } else if !act.Return? {
      SlotsQuiet(c, s, id, act);
    }
  }

  lemma SlotsQuiet(c: Config, s: State, id: Id, act: Act)
    requires TaskEnabled(c, s, id, act)
    requires act.TakeGlobal? || act.TakeTool? || act.Call? || act.Wake? || act.Persist?
    ensures TaskStep(c, s, id, act).decisions == s.decisions
    ensures TaskStep(c, s, id, act).status == s.status && TaskStep(c, s, id, act).earlyExit == s.earlyExit
  {
    QuietActs(c, s, id, act);
  }

  // ----- Whole runs -----

  /** Event `k` ended `ctrl` for a reason to select `t`. */
  ghost predicate SelectedAt(c: Config, states: seq<State>, events: seq<Event>, k: nat, ctrl: Id, t: Id)
  {
    && k < |events| && k < |states| && events[k].Task? && events[k].id == ctrl
    && TaskEnabled(c, states[k], ctrl, events[k].act) && Publishes(c, states[k], ctrl, events[k].act)
    && Selects(c, ctrl, states[k], events[k].act, t)
  }

  ghost predicate SelectedBefore(c: Config, states: seq<State>, events: seq<Event>, n: nat, ctrl: Id, t: Id)
  {
    exists k :: 0 <= k < n && SelectedAt(c, states, events, k, ctrl, t)
  }

  ghost predicate Traced(c: Config, states: seq<State>, events: seq<Event>, n: nat, decisions: map<Id, set<Id>>)
  {
    forall ctrl, t :: ctrl in decisions && t in decisions[ctrl] ==> SelectedBefore(c, states, events, n, ctrl, t)
  }

  lemma TracedLater(c: Config, states: seq<State>, events: seq<Event>, n: nat, decisions: map<Id, set<Id>>)
    requires Traced(c, states, events, n, decisions)
    ensures Traced(c, states, events, n + 1, decisions)
  {
    forall ctrl, t | ctrl in decisions && t in decisions[ctrl]
      ensures SelectedBefore(c, states, events, n + 1, ctrl, t) {
      assert SelectedBefore(c, states, events, n, ctrl, t);
    }
  }

  /** How one event changes the branch decisions and the persisted ones. */
  lemma StepDecisions(c: Config, s: State, e: Event)
    requires ValidConfig(c) && Inv(c, s) && Enabled(c, s, e)
    ensures var s' := Step(c, s, e);
      && (|| s'.decisions == s.decisions
          || (e.Resume? && s'.decisions == s.checkpoint.decisions)
          || (e.Task? && Decides(c, s, e.id, e.act, s'.decisions)))
      && (s'.checkpoint.decisions == s.checkpoint.decisions || s'.checkpoint.decisions == s'.decisions)
  {
    match e
    case Task(id, act) => TaskDecisions(c, s, id, act);
    case Complete =>
    case TimeOut(pointers) =>
    case Crash =>
    case Resume(approvals) =>
  }

  ghost predicate Decides(c: Config, s: State, id: Id, act: Act, decisions: map<Id, set<Id>>)
  {
    && TaskEnabled(c, s, id, act) && Publishes(c, s, id, act)
    && decisions == s.decisions[id := Chosen(c, id, s, act)]
  }

  lemma TaskDecisions(c: Config, s: State, id: Id, act: Act)
    requires ValidConfig(c) && Inv(c, s) && TaskEnabled(c, s, id, act)
    ensures var s' := TaskStep(c, s, id, act);
      && (s'.decisions == s.decisions || Decides(c, s, id, act, s'.decisions))
      && (s'.checkpoint.decisions == s.checkpoint.decisions || s'.checkpoint.decisions == s'.decisions)
  {
    TaskCheckpoint(c, s, id, act);
    if Publishes(c, s, id, act) {
      PublishedDecisions(c, s, id, act);
    } else {
      QuietEvents(c, s, id, act);
    }
  }

  lemma TaskCheckpoint(c: Config, s: State, id: Id, act: Act)
    requires ValidConfig(c) && Inv(c, s) && TaskEnabled(c, s, id, act)
    ensures var s' := TaskStep(c, s, id, act);
      s'.checkpoint.decisions == s.checkpoint.decisions || s'.checkpoint.decisions == s'.decisions
  {
    TaskKeepsInv(c, s, id, act);
    FrameCheckpoint(s, TaskStep(c, s, id, act), id);
  }

  lemma FrameCheckpoint(s: State, s': State, id: Id)
    requires Frame(s, s', id)
    ensures s'.checkpoint == s.checkpoint || s'.checkpoint == Snapshot(s', Active)
  {
  }

  lemma PublishedDecisions(c: Config, s: State, id: Id, act: Act)
    requires TaskEnabled(c, s, id, act) && Publishes(c, s, id, act)
    ensures var s' := TaskStep(c, s, id, act);
      s'.decisions == if c.steps[id].branching.Some? then s.decisions[id := Chosen(c, id, s, act)] else s.decisions
  {
    OutcomesAreRight(c, s, id, act);
  }

  lemma NewTraced(c: Config, states: seq<State>, events: seq<Event>, n: nat, id: Id, chosen: set<Id>)
    requires n < |events| && n < |states| && Traced(c, states, events, n, states[n].decisions)
    requires forall t :: t in chosen ==> SelectedAt(c, states, events, n, id, t)
    ensures Traced(c, states, events, n + 1, states[n].decisions[id := chosen])
  {
    TracedLater(c, states, events, n, states[n].decisions);
    var decisions := states[n].decisions[id := chosen];
    forall ctrl, t | ctrl in decisions && t in decisions[ctrl]
      ensures SelectedBefore(c, states, events, n + 1, ctrl, t) {
      if ctrl == id {
        assert SelectedAt(c, states, events, n, id, t);
      } else {
        assert t in states[n].decisions[ctrl];
      }
    }
  }

  lemma TracedAt(c: Config, approvals: map<Id, M.Decision>, states: seq<State>, events: seq<Event>, n: nat)
    requires ValidConfig(c) && IsRun(c, approvals, states, events) && n < |events|
    requires Traced(c, states, events, n, states[n].decisions)
    requires Traced(c, states, events, n, states[n].checkpoint.decisions)
    ensures Traced(c, states, events, n + 1, states[n + 1].decisions)
    ensures Traced(c, states, events, n + 1, states[n + 1].checkpoint.decisions)
  {
    var s, e := RunStep(c, approvals, states, events, n);
    StepDecisions(c, s, e);
    TracedLater(c, states, events, n, s.decisions);
    TracedLater(c, states, events, n, s.checkpoint.decisions);
    if e.Task? && Decides(c, s, e.id, e.act, states[n + 1].decisions) {
      NewTraced(c, states, events, n, e.id, Chosen(c, e.id, s, e.act));
    }
  }

  /** Every branch decision, persisted ones included, goes back to an event that is a reason for it. */
  lemma {:induction false} DecisionsTraced(
      c: Config, approvals: map<Id, M.Decision>, states: seq<State>, events: seq<Event>, n: nat)
    requires ValidConfig(c) && IsRun(c, approvals, states, events) && n < |states|
    ensures Traced(c, states, events, n, states[n].decisions)
    ensures Traced(c, states, events, n, states[n].checkpoint.decisions)
  {
    if n > 0 {
      DecisionsTraced(c, approvals, states, events, n - 1);
      TracedAt(c, approvals, states, events, n - 1);
    }
  }

  /** The step lists `t` for one of its outcomes. */
  ghost predicate MayBranchTo(c: Config, ctrl: Id, t: Id)
  {
    && ctrl in c.steps && c.steps[ctrl].branching.Some?
    && var b := c.steps[ctrl].branching.value; t in b.onTrue || t in b.onFalse || t in b.onError
  }

  /**
    When the tool of a branch target is called, some step that lists it earlier ended for a reason
    that selects it: its condition held or not and the target is on that side, or it failed, was
    refused or had no condition to evaluate and the target is a fallback.
   */
  lemma BranchTargetsWereSelected(
      c: Config, approvals: map<Id, M.Decision>, states: seq<State>, events: seq<Event>, n: nat, t: Id)
      returns (ctrl: Id)
    requires ValidConfig(c) && IsRun(c, approvals, states, events)
    requires n < |events| && events[n] == Task(t, Call) && exists x :: MayBranchTo(c, x, t)
    ensures MayBranchTo(c, ctrl, t) && SelectedBefore(c, states, events, n, ctrl, t)
  {
    CallsAreJustified(c, approvals, states, events, n, t);
    DecisionsTraced(c, approvals, states, events, n);
    var x :| MayBranchTo(c, x, t);
    assert x in Controllers(c, t);
    assert Activated(c, states[n], t);
    ctrl :| ctrl in Controllers(c, t) && ctrl in states[n].decisions && t in states[n].decisions[ctrl];
  }
}
