/**
  Macros whose executions do not settle. Steps that begin by waiting for each other block every
  run, across crashes and resumes; and where nothing else can end a step, an execution settles
  exactly when the waits have no cycle.
 */
module Deadlocks {
  import opened Wrappers
  import opened Sorting
  import opened Graph
  import opened Scheduler
  import opened SchedulerSafety
  import opened SchedulerRuns
  import opened SchedulerProgress
  import opened CircularWaits
  import Text
  import M = Macro

  // ----- Groups that block themselves -----

  /** Nothing holds the step back but its own first wait, which is for a member of the group. */
  ghost predicate WaitsFirst(c: Config, group: set<Id>, x: Id)
  {
    && x in c.steps && Controllers(c, x) == {} && !c.steps[x].approvalRequired
    && StepActions(c, x) != [] && StepActions(c, x)[0].Await?
    && StepActions(c, x)[0].id in group && StepActions(c, x)[0].id in c.steps
  }

  ghost predicate SelfBlocking(c: Config, group: set<Id>)
  {
    group != {} && forall x {:trigger WaitsFirst(c, group, x)} :: x in group ==> WaitsFirst(c, group, x)
  }

  ghost predicate NoEarlyExit(c: Config)
  {
    forall x :: x in c.steps && c.steps[x].branching.Some? ==> !c.steps[x].branching.value.allowEarlyExit
  }

  /** Neither published nor persisted, and no further than its first wait. */
  ghost predicate Untouched(c: Config, s: State, x: Id)
  {
    && x in c.steps && x !in s.status && x !in s.futures && x !in s.checkpoint.status
    && (s.live ==> x in s.pc && (s.pc[x] == Queued || s.pc[x] == Resolving(StepActions(c, x))))
  }

  ghost predicate Blocked(c: Config, s: State, group: set<Id>)
  {
    !s.done && !s.earlyExit && forall x :: x in group ==> Untouched(c, s, x)
  }

  lemma NoExitAtGate(c: Config, s: State, id: Id, ptr: Pointer)
    requires NoEarlyExit(c) && !s.earlyExit && id in c.steps
    ensures !PassGate(c, s, id, ptr).earlyExit
  {
    match GateOutcome(c, s, id)
    case None =>
    case Some(status) => NoExitPublished(c, s, id, status, ptr);
  }

  lemma NoExitPublished(c: Config, s: State, id: Id, status: Status, ptr: Pointer)
    requires NoEarlyExit(c) && !s.earlyExit && id in c.steps
    ensures !PublishFailure(s, id, c.steps[id], status, ptr).earlyExit
    ensures !PublishIdle(s, id, c.steps[id], status, ptr).earlyExit
  {
  }

  lemma NoExitOnReturn(c: Config, s: State, id: Id, ptr: Pointer, condition: Option<bool>)
    requires NoEarlyExit(c) && !s.earlyExit && id in c.steps
    ensures !PublishSuccess(s, id, c.steps[id], ptr, condition).earlyExit
  {
  }

  lemma TaskRaisesNoExit(c: Config, s: State, id: Id, act: Act)
    requires NoEarlyExit(c) && !s.earlyExit && TaskEnabled(c, s, id, act)
    ensures !TaskStep(c, s, id, act).earlyExit
  {
    if act.Start? || act.Gate? {
      NoExitAtGate(c, s, id, act.ptr);
    } else if act.Resolve? || act.CheckArguments? {
      NoExitPublished(c, s, id, Error, act.ptr);
    } else if act.Return? {
      NoExitOnReturn(c, Release(c, s, id), id, act.ptr, act.condition);
    } else if act.Raise? {
      NoExitPublished(c, Release(c, s, id), id, Error, act.ptr);
    } else {
      QuietActs(c, s, id, act);
    }
  }

  /** A member can only start, and then it stands before its first wait. */
  lemma MemberOnlyStarts(c: Config, s: State, group: set<Id>, x: Id, act: Act)
    requires Blocked(c, s, group) && WaitsFirst(c, group, x) && x in group && TaskEnabled(c, s, x, act)
    ensures act.Start? && TaskStep(c, s, x, act) == At(s, x, Resolving(StepActions(c, x)))
  {
    assert Untouched(c, s, x) && Untouched(c, s, StepActions(c, x)[0].id);
  }

  lemma OthersUntouched(c: Config, s: State, s': State, id: Id, x: Id)
    requires Frame(s, s', id) && x != id && Untouched(c, s, x)
    ensures Untouched(c, s', x)
  {
  }

  lemma TaskStaysBlocked(c: Config, s: State, group: set<Id>, id: Id, act: Act)
    requires ValidConfig(c) && Inv(c, s) && NoEarlyExit(c) && SelfBlocking(c, group)
    requires Blocked(c, s, group) && TaskEnabled(c, s, id, act)
    ensures Blocked(c, TaskStep(c, s, id, act), group)
  {
    var s' := TaskStep(c, s, id, act);
    TaskKeepsInv(c, s, id, act);
    TaskRaisesNoExit(c, s, id, act);
    forall x | x in group ensures Untouched(c, s', x) {
      assert Untouched(c, s, x);
      if x == id {
        assert WaitsFirst(c, group, x);
        MemberOnlyStarts(c, s, group, x, act);
      } else {
        OthersUntouched(c, s, s', id, x);
      }
    }
  }

  lemma LaunchIsBlocked(c: Config, approvals: map<Id, M.Decision>, s: State, group: set<Id>)
    requires SelfBlocking(c, group) && forall x :: x in group ==> x !in s.checkpoint.status
    ensures Blocked(c, Launch(c, approvals, s.checkpoint.status, s.checkpoint.decisions), group)
  {
    forall x | x in group ensures x in c.steps {
      assert WaitsFirst(c, group, x);
    }
  }

  lemma StaysBlocked(c: Config, s: State, group: set<Id>, e: Event)
    requires ValidConfig(c) && Inv(c, s) && NoEarlyExit(c) && !c.hasDeadline && SelfBlocking(c, group)
    requires Blocked(c, s, group) && Enabled(c, s, e)
    ensures Blocked(c, Step(c, s, e), group)
  {
    match e
    case Task(id, act) => TaskStaysBlocked(c, s, group, id, act);
    case Crash => CrashStaysBlocked(c, s, group);
    case Resume(approvals) =>
      MembersNotPersisted(c, s, group);
      LaunchIsBlocked(c, s.approvals + approvals, s, group);
    case Complete => BlockedIsIncomplete(c, s, group);
  }

  lemma CrashStaysBlocked(c: Config, s: State, group: set<Id>)
    requires Blocked(c, s, group)
    ensures Blocked(c, s.(live := false), group)
  {
    forall x | x in group ensures Untouched(c, s.(live := false), x) {
      assert Untouched(c, s, x);
    }
  }

  lemma MembersNotPersisted(c: Config, s: State, group: set<Id>)
    requires Blocked(c, s, group)
    ensures forall x :: x in group ==> x !in s.checkpoint.status
  {
    forall x | x in group ensures x !in s.checkpoint.status {
      assert Untouched(c, s, x);
    }
  }

  lemma BlockedIsIncomplete(c: Config, s: State, group: set<Id>)
    requires Blocked(c, s, group) && group != {} && s.live
    ensures exists x :: x in s.pc && s.pc[x] != Finished
  {
    var x :| x in group;
    assert Untouched(c, s, x);
  }

  /**
    In every run, across crashes and resumes, no member of a group that blocks itself is ever
    published or persisted, and no execution is ever done.
   */
  lemma {:induction false} SelfBlockingNeverSettles(
      c: Config, approvals: map<Id, M.Decision>, states: seq<State>, events: seq<Event>, group: set<Id>, n: nat)
    requires ValidConfig(c) && NoEarlyExit(c) && !c.hasDeadline && SelfBlocking(c, group)
    requires IsRun(c, approvals, states, events) && n < |states|
    ensures Blocked(c, states[n], group)
  {
    if n == 0 {
      LaunchIsBlocked(c, approvals, Begin(c, approvals), group);
    } else {
      SelfBlockingNeverSettles(c, approvals, states, events, group, n - 1);
      BlockedAt(c, approvals, states, events, group, n - 1);
    }
  }

  lemma BlockedAt(
      c: Config, approvals: map<Id, M.Decision>, states: seq<State>, events: seq<Event>, group: set<Id>, k: nat)
    requires ValidConfig(c) && NoEarlyExit(c) && !c.hasDeadline && SelfBlocking(c, group)
    requires IsRun(c, approvals, states, events) && k < |events| && Blocked(c, states[k], group)
    ensures Blocked(c, states[k + 1], group)
  {
    var s, e := RunStep(c, approvals, states, events, k);
    StaysBlocked(c, s, group, e);
  }

  // ----- Plain macros: an execution settles exactly when the waits have no cycle -----

  /** What the step asks for is known and within depth. */
  ghost predicate Answerable(c: Config, a: Action)
  {
    a.Load? || (a.Await? && a.id in c.steps)
  }

  ghost predicate PlainStep(c: Config, x: Id)
    requires x in c.steps
  {
    && c.steps[x].branching.None? && !c.steps[x].approvalRequired
    && forall i :: 0 <= i < |StepActions(c, x)| ==> Answerable(c, StepActions(c, x)[i])
  }

  /** No branching, no approvals, no deadline, and every reference known and within depth. */
  ghost predicate Plain(c: Config)
  {
    !c.hasDeadline && forall x :: x in c.steps ==> PlainStep(c, x)
  }

  /** Stored values load, arguments are valid and tools return. */
  predicate SmoothAct(act: Act)
  {
    (act.Resolve? ==> act.loads) && (act.CheckArguments? ==> act.valid) && !act.Raise?
  }

  predicate Smooth(e: Event) { e.Task? ==> SmoothAct(e.act) }

  /** A whole execution of a fresh macro in which nothing goes wrong. */
  ghost predicate SmoothExecution(c: Config, approvals: map<Id, M.Decision>, states: seq<State>, events: seq<Event>)
  {
    && IsExecution(c, states, events) && states[0] == Begin(c, approvals)
    && forall i :: 0 <= i < |events| ==> Smooth(events[i])
  }

  /** Nothing but successes has been published. */
  ghost predicate OnlyOk(s: State)
  {
    !s.earlyExit && forall x :: x in s.status ==> s.status[x].status == Ok
  }

  lemma PlainHasNoControllers(c: Config, x: Id)
    requires Plain(c)
    ensures Controllers(c, x) == {}
  {
    forall ctrl | ctrl in c.steps ensures x !in c.steps[ctrl].Targets() {
      assert PlainStep(c, ctrl);
    }
  }

  lemma PlainGateOpen(c: Config, s: State, id: Id, ptr: Pointer)
    requires Plain(c) && id in c.steps && !s.earlyExit
    ensures PassGate(c, s, id, ptr) == At(s, id, Resolving(StepActions(c, id)))
  {
    PlainHasNoControllers(c, id);
    assert PlainStep(c, id);
  }

  lemma PlainReferenceSucceeds(c: Config, s: State, id: Id, act: Act)
    requires ValidConfig(c) && Plain(c) && Inv(c, s) && OnlyOk(s) && TaskEnabled(c, s, id, act) && act.Resolve?
    requires act.loads
    ensures Succeeds(s, s.pc[id].pending[0], true)
  {
    assert TaskInv(c, s, id);
    var a := s.pc[id].pending[0];
    assert a in StepActions(c, id);
    assert PlainStep(c, id) && Answerable(c, a);
    if a.Await? {
      assert Consistent(s, a.id);
    }
  }

  lemma PlainReturn(c: Config, s: State, id: Id, ptr: Pointer, condition: Option<bool>)
    requires Plain(c) && id in c.steps && OnlyOk(s)
    ensures OnlyOk(PublishSuccess(s, id, c.steps[id], ptr, condition))
  {
    assert PlainStep(c, id);
  }

  lemma SmoothTaskOnlyOk(c: Config, s: State, id: Id, act: Act)
    requires ValidConfig(c) && Plain(c) && Inv(c, s) && OnlyOk(s) && TaskEnabled(c, s, id, act) && SmoothAct(act)
    ensures OnlyOk(TaskStep(c, s, id, act))
  {
    if act.Start? || act.Gate? {
      PlainGateOpen(c, s, id, act.ptr);
    } else if act.Resolve? {
      PlainReferenceSucceeds(c, s, id, act);
    } else if act.Return? {
      PlainReturn(c, Release(c, s, id), id, act.ptr, act.condition);
    } else if !act.CheckArguments? {
      QuietActs(c, s, id, act);
    }
  }

  lemma ExecutionIsRun(c: Config, approvals: map<Id, M.Decision>, states: seq<State>, events: seq<Event>)
    requires SmoothExecution(c, approvals, states, events)
    ensures IsRun(c, approvals, states, events)
  {
  }

  lemma OnlyOkAt(c: Config, approvals: map<Id, M.Decision>, states: seq<State>, events: seq<Event>, k: nat)
    requires ValidConfig(c) && Plain(c) && SmoothExecution(c, approvals, states, events) && k < |events|
    requires OnlyOk(states[k])
    ensures OnlyOk(states[k + 1])
  {
    ExecutionIsRun(c, approvals, states, events);
    var s, e := RunStep(c, approvals, states, events, k);
    assert StepAt(c, states, events, k);
    assert Smooth(e) && e.WithinExecution();
    if e.Task? {
      SmoothTaskOnlyOk(c, s, e.id, e.act);
    }
  }

  lemma {:induction false} SmoothIsOnlyOk(
      c: Config, approvals: map<Id, M.Decision>, states: seq<State>, events: seq<Event>, n: nat)
    requires ValidConfig(c) && Plain(c) && SmoothExecution(c, approvals, states, events) && n < |states|
    ensures OnlyOk(states[n])
  {
    if n > 0 {
      SmoothIsOnlyOk(c, approvals, states, events, n - 1);
      OnlyOkAt(c, approvals, states, events, n - 1);
    }
  }

  /** The members of a cycle of waits refer to each other. */
  lemma CycleIsEntangled(c: Config, p: seq<Id>)
    requires Plain(c) && Cycle(WaitGraph(c), p)
    ensures Entangled(c, Elements(p)) && p[0] in c.steps
  {
    forall x | x in Elements(p) ensures AwaitsWithin(c, x, Elements(p)) {
      var j :| 0 <= j < |p| && p[j] == x;
      var i := if j > 0 then j - 1 else |p| - 2;
      assert Edge(WaitGraph(c), p[i], p[i + 1]) && p[i + 1] == x;
      PlainHasNoControllers(c, x);
      assert p[i] in Elements(p) && Awaits(c, x, p[i]);
    }
    assert Edge(WaitGraph(c), p[0], p[1]);
  }

  /** With a cycle of waits no smooth execution ever settles. */
  lemma CyclicNeverSettles(
      c: Config, approvals: map<Id, M.Decision>, states: seq<State>, events: seq<Event>, p: seq<Id>, n: nat)
    requires ValidConfig(c) && Plain(c) && SmoothExecution(c, approvals, states, events) && n < |states|
    requires Cycle(WaitGraph(c), p)
    ensures !Settled(c, states[n])
  {
    CycleIsEntangled(c, p);
    ExecutionIsRun(c, approvals, states, events);
    CircularReferencesNeverRun(c, approvals, states, events, Elements(p), n);
    SmoothIsOnlyOk(c, approvals, states, events, n);
    NotAmongPublished(states[n], Elements(p), p[0]);
  }

  lemma NotAmongPublished(s: State, group: set<Id>, x: Id)
    requires Fruitless(s, group) && OnlyOk(s) && x in group
    ensures x !in s.status
  {
  }

  // ----- Every execution can be carried on to an end -----

  ghost predicate CanGoOn(c: Config, s: State)
  {
    exists e :: SmoothNext(c, s, e)
  }

  ghost predicate SmoothNext(c: Config, s: State, e: Event)
  {
    Enabled(c, s, e) && Smooth(e) && e.WithinExecution()
  }

  function SmoothVersion(act: Act): Act
  {
    match act
    case Resolve(ptr, _) => Resolve(ptr, true)
    case CheckArguments(ptr, _) => CheckArguments(ptr, true)
    case Raise(ptr, _) => Return(ptr, None)
    case _ => act
  }

  lemma NotStoppedGoesOn(c: Config, s: State)
    requires !c.hasDeadline && !CanGoOn(c, s)
    ensures Stopped(c, s)
  {
    forall e: Event | e.WithinExecution() ensures !Enabled(c, s, e) {
      var e' := if e.Task? then Task(e.id, SmoothVersion(e.act)) else e;
      assert !SmoothNext(c, s, e');
    }
  }

  lemma ExecutionExtends(c: Config, approvals: map<Id, M.Decision>, states: seq<State>, events: seq<Event>, e: Event)
    requires SmoothExecution(c, approvals, states, events) && SmoothNext(c, states[|events|], e)
    ensures SmoothExecution(c, approvals, states + [Step(c, states[|events|], e)], events + [e])
  {
    var ss, es := states + [Step(c, states[|events|], e)], events + [e];
    forall i | 0 <= i < |es| ensures StepAt(c, ss, es, i) && es[i].WithinExecution() && Smooth(es[i]) {
      if i < |events| {
        assert StepAt(c, states, events, i);
      }
    }
  }

  lemma MeasureOf(c: Config, states: seq<State>, events: seq<Event>, order: seq<Id>)
    requires ValidConfig(c) && IsExecution(c, states, events) && Elements(order) == c.steps.Keys
    ensures Underway(c, states[|events|])
    ensures forall x :: x in order ==> x in Elements(order)
    ensures Measure(c, states[|events|], order) >= 0
  {
    ExecutionShrinks(c, states, events, order, |events|);
    TotalNonNegative(c, states[|events|], order);
  }

  /** Any smooth execution goes on to one that has stopped. */
  lemma {:induction false} Maximal(
      c: Config, approvals: map<Id, M.Decision>, states: seq<State>, events: seq<Event>, order: seq<Id>, fuel: nat)
      returns (ss: seq<State>, es: seq<Event>)
    requires ValidConfig(c) && !c.hasDeadline && Elements(order) == c.steps.Keys
    requires SmoothExecution(c, approvals, states, events)
    requires Underway(c, states[|events|]) && (forall x :: x in order ==> x in Elements(order))
    requires Measure(c, states[|events|], order) <= fuel
    ensures SmoothExecution(c, approvals, ss, es) && Stopped(c, ss[|es|])
    decreases fuel
  {
    if CanGoOn(c, states[|events|]) {
      var e :| SmoothNext(c, states[|events|], e);
      var s' := Step(c, states[|events|], e);
      ExecutionExtends(c, approvals, states, events, e);
      StepShrinks(c, states[|events|], e, order);
      MeasureOf(c, states + [s'], events + [e], order);
      ss, es := Maximal(c, approvals, states + [s'], events + [e], order, fuel - 1);
    } else {
      NotStoppedGoesOn(c, states[|events|]);
      ss, es := states, events;
    }
  }

  lemma StoppedExecutionExists(c: Config, approvals: map<Id, M.Decision>)
      returns (states: seq<State>, events: seq<Event>)
    requires ValidConfig(c) && !c.hasDeadline
    ensures SmoothExecution(c, approvals, states, events) && Stopped(c, states[|events|])
  {
    IdOrder();
    var order := Arranged(c.steps.Keys, Text.Less);
    var s := Begin(c, approvals);
    LaunchInv(c, approvals, map[], map[]);
    assert SmoothExecution(c, approvals, [s], []);
    MeasureOf(c, [s], [], order);
    states, events := Maximal(c, approvals, [s], [], order, Measure(c, s, order));
  }

  ghost predicate AlwaysSettles(c: Config, approvals: map<Id, M.Decision>)
  {
    forall states, events :: SmoothExecution(c, approvals, states, events) && Stopped(c, states[|events|])
      ==> Settled(c, states[|events|])
  }

  /** Where nothing else can end a step, every execution settles if and only if the waits have no cycle. */
  lemma SettlesIffAcyclic(c: Config, approvals: map<Id, M.Decision>)
    requires ValidConfig(c) && Plain(c)
    ensures AlwaysSettles(c, approvals) <==> Acyclic(WaitGraph(c))
  {
    if Acyclic(WaitGraph(c)) {
      forall states, events | SmoothExecution(c, approvals, states, events) && Stopped(c, states[|events|])
        ensures Settled(c, states[|events|])
      {
        var order := AcyclicWaitsFinish(c, states, events);
      }
    } else {
      var p :| Cycle(WaitGraph(c), p);
      var states, events := StoppedExecutionExists(c, approvals);
      CyclicNeverSettles(c, approvals, states, events, p, |events|);
    }
  }
}
