/**
  What decides whether a macro can finish: the graph of the waits its tasks make. Where it has
  no cycle every execution settles; steps whose references run in a circle never succeed.
 */
module CircularWaits {
  import opened Wrappers
  import opened Sorting
  import opened Graph
  import opened Scheduler
  import opened SchedulerSafety
  import opened SchedulerRuns
  import opened SchedulerProgress
  import M = Macro

  /** From each step to the steps that wait for it, as controller or by reference. */
  ghost function WaitGraph(c: Config): Adjacency
  {
    map y | y in c.steps :: set x | x in c.steps && (y in Controllers(c, x) || Await(y) in StepActions(c, x))
  }

  lemma WaitsFollowWaits(c: Config)
    ensures WaitsFollow(c, WaitGraph(c)) && WellFormed(WaitGraph(c)) && WaitGraph(c).Keys == c.steps.Keys
  {
    forall id, a | id in c.steps && a in StepActions(c, id) && a.Await? && a.id in c.steps
      ensures Edge(WaitGraph(c), a.id, id)
    {
      assert a == Await(a.id);
    }
  }

  ghost predicate EventsWithin(c: Config, events: seq<Event>, order: seq<Id>)
  {
    (forall id :: id in order ==> id in c.steps) && |events| <= Bound(c, order)
  }

  /** Waits without a cycle: every execution is finite, and one that cannot go on is settled. */
  lemma AcyclicWaitsFinish(c: Config, states: seq<State>, events: seq<Event>) returns (order: seq<Id>)
    requires ValidConfig(c) && Acyclic(WaitGraph(c)) && IsExecution(c, states, events)
    ensures Topological(WaitGraph(c), order) && EventsWithin(c, events, order)
    ensures Stopped(c, states[|events|]) ==> Settled(c, states[|events|])
  {
    WaitsFollowWaits(c);
    order := WaitOrder(c);
    EveryExecutionFinishes(c, WaitGraph(c), states, events, order);
  }

  lemma WaitOrder(c: Config) returns (order: seq<Id>)
    requires Acyclic(WaitGraph(c))
    ensures Topological(WaitGraph(c), order) && forall id :: id in order ==> id in c.steps
  {
    var adj := WaitGraph(c);
    WaitsFollowWaits(c);
    GreedyCompleteIffAcyclic(adj);
    order := Greedy(adj, adj.Keys);
    assert forall id :: id in order ==> id in Elements(order);
  }

  // ----- Circular references -----

  ghost predicate Awaits(c: Config, x: Id, y: Id)
  {
    x in c.steps && Await(y) in StepActions(c, x)
  }

  ghost predicate AwaitsWithin(c: Config, x: Id, group: set<Id>)
  {
    exists y :: y in group && Awaits(c, x, y)
  }

  /** Every member's arguments refer to a member. */
  ghost predicate Entangled(c: Config, group: set<Id>)
  {
    forall x {:trigger AwaitsWithin(c, x, group)} :: x in group ==> AwaitsWithin(c, x, group)
  }

  ghost predicate NoneOk(status: map<Id, Published>, group: set<Id>)
  {
    forall x :: x in group && x in status ==> status[x].status != Ok
  }

  ghost predicate Fruitless(s: State, group: set<Id>)
  {
    NoneOk(s.status, group) && NoneOk(s.checkpoint.status, group)
  }

  lemma AwaitsIsJustified(c: Config, s: State, x: Id, y: Id)
    requires Awaits(c, x, y) && Justified(c, s, x)
    ensures y in s.status && s.status[y].status == Ok
  {
    var actions := StepActions(c, x);
    var i :| 0 <= i < |actions| && actions[i] == Await(y);
    assert PublishedOk(s, actions[i].id);
  }

  lemma MemberNotJustified(c: Config, s: State, group: set<Id>, x: Id)
    requires x in c.steps && NoneOk(s.status, group) && AwaitsWithin(c, x, group)
    ensures !Justified(c, s, x)
  {
    var y :| y in group && Awaits(c, x, y);
    if Justified(c, s, x) {
      AwaitsIsJustified(c, s, x, y);
    }
  }

  /** No member has what it needs for its call. */
  ghost predicate NoneJustified(c: Config, s: State, group: set<Id>)
  {
    forall x :: x in group && x in c.steps ==> !Justified(c, s, x)
  }

  lemma MembersNotJustified(c: Config, s: State, group: set<Id>)
    requires Entangled(c, group) && NoneOk(s.status, group)
    ensures NoneJustified(c, s, group)
  {
    forall x | x in group && x in c.steps ensures !Justified(c, s, x) {
      MemberNotJustified(c, s, group, x);
    }
  }

  ghost predicate OkIn(s: State, id: Id) { id in s.status && s.status[id].status == Ok }

  lemma PublishedIn(s: State, id: Id, step: M.Step, status: Status, ptr: Pointer)
    ensures OkIn(PublishFailure(s, id, step, status, ptr), id) <==> status == Ok
    ensures OkIn(PublishIdle(s, id, step, status, ptr), id) <==> status == Ok
  {
  }

  lemma GateNeverOk(c: Config, s: State, id: Id)
    requires id in c.steps
    ensures GateOutcome(c, s, id) != Some(Ok)
  {
  }

  lemma GateNeverSucceeds(c: Config, s: State, id: Id, ptr: Pointer)
    requires id in c.steps
    ensures OkIn(PassGate(c, s, id, ptr), id) ==> OkIn(s, id)
  {
    GateNeverOk(c, s, id);
    match GateOutcome(c, s, id)
    case None =>
    case Some(status) => PublishedIn(s, id, c.steps[id], status, ptr);
  }

  lemma ResolutionNeverSucceeds(c: Config, s: State, id: Id, ptr: Pointer, loads: bool)
    requires id in c.steps && id in s.pc && s.pc[id].Resolving? && s.pc[id].pending != []
    ensures OkIn(ResolveNext(c, s, id, ptr, loads), id) ==> OkIn(s, id)
  {
  }

  /** Success is published by a task whose call returned, and by nothing else. */
  lemma OnlyCallsSucceed(c: Config, s: State, id: Id, act: Act)
    requires TaskEnabled(c, s, id, act) && OkIn(TaskStep(c, s, id, act), id)
    ensures OkIn(s, id) || s.pc[id].Calling?
  {
    if act.Start? {
      StartNeverSucceeds(c, s, id, act.ptr);
    } else if act.Gate? {
      GateNeverSucceeds(c, s, id, act.ptr);
    } else if act.Resolve? {
      ResolutionNeverSucceeds(c, s, id, act.ptr, act.loads);
    } else if act.CheckArguments? {
      PublishedIn(s, id, c.steps[id], Error, act.ptr);
    } else if !s.pc[id].Calling? {
      QuietActs(c, s, id, act);
    }
  }

  lemma StartNeverSucceeds(c: Config, s: State, id: Id, ptr: Pointer)
    requires id in c.steps
    ensures OkIn(StartTask(c, s, id, ptr), id) ==> OkIn(s, id)
  {
    if !(id in s.status && s.status[id].status.Terminal()) && Controllers(c, id) == {} {
      GateNeverSucceeds(c, s, id, ptr);
    }
  }

  /** Taking and giving back slots, calling and writing the checkpoint publish nothing. */
  lemma QuietActs(c: Config, s: State, id: Id, act: Act)
    requires TaskEnabled(c, s, id, act)
    requires act.TakeGlobal? || act.TakeTool? || act.Call? || act.Wake? || act.Persist?
    ensures var s' := TaskStep(c, s, id, act); s'.status == s.status && s'.earlyExit == s.earlyExit
  {
  }

  lemma TaskStaysFruitless(c: Config, s: State, id: Id, act: Act, group: set<Id>)
    requires ValidConfig(c) && Inv(c, s) && TaskEnabled(c, s, id, act) && NoneJustified(c, s, group)
    requires Fruitless(s, group)
    ensures Fruitless(TaskStep(c, s, id, act), group) && !(act.Call? && id in group)
  {
    var s' := TaskStep(c, s, id, act);
    TaskKeepsInv(c, s, id, act);
    assert TaskInv(c, s, id);
    if OkIn(s', id) {
      OnlyCallsSucceed(c, s, id, act);
    }
    FrameStaysFruitless(s, s', id, group);
  }

  lemma FrameStaysFruitless(s: State, s': State, id: Id, group: set<Id>)
    requires Frame(s, s', id) && Fruitless(s, group) && (id in group ==> !OkIn(s', id))
    ensures Fruitless(s', group)
  {
  }

  ghost predicate NotCalled(e: Event, group: set<Id>) { e.Task? && e.act.Call? ==> e.id !in group }

  lemma BeginsFruitless(c: Config, approvals: map<Id, M.Decision>, group: set<Id>)
    ensures Fruitless(Begin(c, approvals), group)
  {
  }

  lemma StaysFruitless(c: Config, s: State, e: Event, group: set<Id>)
    requires ValidConfig(c) && Inv(c, s) && Enabled(c, s, e) && NoneJustified(c, s, group) && Fruitless(s, group)
    ensures Fruitless(Step(c, s, e), group) && NotCalled(e, group)
  {
    match e
    case Task(id, act) => TaskStaysFruitless(c, s, id, act, group);
    case TimeOut(pointers) => TimeOutStaysFruitless(c, s, pointers, group);
    case Complete =>
    case Crash =>
    case Resume(_) =>
  }

  lemma TimeOutStaysFruitless(c: Config, s: State, pointers: map<Id, Pointer>, group: set<Id>)
    requires c.steps.Keys - s.status.Keys <= pointers.Keys && Fruitless(s, group)
    ensures Fruitless(MarkTimeouts(c, s, pointers), group)
  {
  }

  lemma FruitlessAt(
      c: Config, approvals: map<Id, M.Decision>, states: seq<State>, events: seq<Event>, group: set<Id>, k: nat)
    requires ValidConfig(c) && IsRun(c, approvals, states, events) && k < |events| && Entangled(c, group)
    requires Fruitless(states[k], group)
    ensures Fruitless(states[k + 1], group) && NotCalled(events[k], group)
  {
    var s, e := RunStep(c, approvals, states, events, k);
    MembersNotJustified(c, s, group);
    StaysFruitless(c, s, e, group);
  }

  /**
    In no run, across crashes and resumes, does a step of a circle of references succeed or even
    have its tool called.
   */
  lemma {:induction false} CircularReferencesNeverRun(
      c: Config, approvals: map<Id, M.Decision>, states: seq<State>, events: seq<Event>, group: set<Id>, n: nat)
    requires ValidConfig(c) && IsRun(c, approvals, states, events) && n < |states| && Entangled(c, group)
    ensures Fruitless(states[n], group)
    ensures forall k :: 0 <= k < n ==> NotCalled(events[k], group)
  {
    if n == 0 {
      BeginsFruitless(c, approvals, group);
    } else {
      CircularReferencesNeverRun(c, approvals, states, events, group, n - 1);
      FruitlessAt(c, approvals, states, events, group, n - 1);
    }
  }
}
