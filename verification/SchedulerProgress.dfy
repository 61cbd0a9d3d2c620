/**
  Deadlock freedom and termination: the acyclicity established by the validator makes
  every interleaving of the executor finish.
 */
module SchedulerProgress {
  import opened Wrappers
  import opened Sorting
  import opened Graph
  import opened Scheduler
  import opened SchedulerSafety
  import opened SchedulerRuns

  /** Every wait of a step on another step of the macro follows an edge of the graph. */
  ghost predicate WaitsFollow(c: Config, adj: Adjacency)
  {
    && (forall id, ctrl :: id in c.steps && ctrl in Controllers(c, id) ==> Edge(adj, ctrl, id))
    && (forall id, a :: id in c.steps && a in StepActions(c, id) && a.Await? && a.id in c.steps ==> Edge(adj, a.id, id))
  }

  // ----- Deadlock freedom -----

  ghost predicate CanMove(c: Config, s: State)
  {
    exists id, act :: TaskEnabled(c, s, id, act)
  }

  lemma HolderMoves(c: Config, s: State, id: Id)
    requires id in c.steps && id in s.pc && s.live && !s.done && s.pc[id].HoldsTool()
    ensures CanMove(c, s)
  {
    match s.pc[id] {
      case Holding(_) => assert TaskEnabled(c, s, id, Call);
      case Calling(_) => assert TaskEnabled(c, s, id, Return(0, None));
      case BackingOff(_) => assert TaskEnabled(c, s, id, Wake);
    }
  }

  /** A full per-tool semaphore has holders, and they can move. */
  lemma ToolWaiterMoves(c: Config, s: State, id: Id)
    requires ValidConfig(c) && Inv(c, s) && s.live && !s.done && id in s.pc && s.pc[id].WantsTool?
    ensures CanMove(c, s)
  {
    assert TaskInv(c, s, id);
    var k := c.toolKey[id];
    if s.toolFree[k] > 0 {
      assert TaskEnabled(c, s, id, TakeTool);
    } else {
      assert |ToolHolders(c, s.pc, k)| >= 1;
      var h :| h in ToolHolders(c, s.pc, k);
      HolderMoves(c, s, h);
    }
  }

  lemma GlobalWaiterMoves(c: Config, s: State, id: Id)
    requires ValidConfig(c) && Inv(c, s) && s.live && !s.done && id in s.pc && s.pc[id].WantsGlobal?
    ensures CanMove(c, s)
  {
    if s.globalFree > 0 {
      assert TaskEnabled(c, s, id, TakeGlobal);
    } else {
      assert |GlobalHolders(s.pc)| >= 1;
      var h :| h in GlobalHolders(s.pc);
      if s.pc[h].WantsTool? {
        ToolWaiterMoves(c, s, h);
      } else {
        HolderMoves(c, s, h);
      }
    }
  }

  /** The step's own wait is over, or it waits for a step that has not published. */
  lemma BlockedOn(c: Config, s: State, adj: Adjacency, id: Id) returns (blocker: Option<Id>)
    requires ValidConfig(c) && WaitsFollow(c, adj) && Inv(c, s) && s.live && !s.done && id in s.pc
    requires s.pc[id] != Finished
    ensures blocker.None? ==> CanMove(c, s)
    ensures blocker.Some? ==> Edge(adj, blocker.value, id) && blocker.value in s.pc && blocker.value !in s.futures
  {
    blocker := None;
    assert TaskInv(c, s, id);
    var pc := s.pc[id];
    if pc.AwaitingControllers? || pc.Resolving? {
      blocker := WaitingOn(c, s, adj, id);
    } else if pc.WantsGlobal? {
      GlobalWaiterMoves(c, s, id);
    } else if pc.WantsTool? {
      ToolWaiterMoves(c, s, id);
    } else if pc.HoldsTool() {
      HolderMoves(c, s, id);
    } else {
      assert TaskEnabled(c, s, id, if pc.Queued? then Start(0) else Persist);
    }
  }

  /** The controller or the reference a task still waits for. */
  lemma WaitingOn(c: Config, s: State, adj: Adjacency, id: Id) returns (blocker: Option<Id>)
    requires WaitsFollow(c, adj) && StatusInv(c, s) && s.live && !s.done && id in s.pc
    requires TaskInv(c, s, id) && (s.pc[id].AwaitingControllers? || s.pc[id].Resolving?)
    ensures blocker.None? ==> CanMove(c, s)
    ensures blocker.Some? ==> Edge(adj, blocker.value, id) && blocker.value in s.pc && blocker.value !in s.futures
  {
    blocker := None;
    if s.pc[id].AwaitingControllers? {
      if Controllers(c, id) <= s.futures.Keys {
        assert TaskEnabled(c, s, id, Gate(0));
      } else {
        var ctrl :| ctrl in Controllers(c, id) && ctrl !in s.futures;
        blocker := Some(ctrl);
      }
    } else {
      var pending := s.pc[id].pending;
      if pending == [] {
        assert TaskEnabled(c, s, id, CheckArguments(0, true));
      } else if pending[0].Await? && pending[0].id in c.steps && pending[0].id !in s.futures {
        assert pending[0] in StepActions(c, id);
        blocker := Some(pending[0].id);
      } else {
        assert TaskEnabled(c, s, id, Resolve(0, true));
      }
    }
  }

  /** Following blockers backwards along a topological order ends at a step that can move. */
  lemma {:induction false} SomeTaskMoves(c: Config, s: State, adj: Adjacency, order: seq<Id>, i: nat)
    requires ValidConfig(c) && WaitsFollow(c, adj) && Inv(c, s) && s.live && !s.done && !s.timedOut
    requires adj.Keys == c.steps.Keys && Topological(adj, order) && i < |order| && order[i] in s.pc
    requires s.pc[order[i]] != Finished
    ensures CanMove(c, s)
    decreases i
  {
    var blocker := BlockedOn(c, s, adj, order[i]);
    if blocker.Some? {
      var j := PlaceBefore(adj, order, blocker.value, i);
      UnpublishedIsUnfinished(c, s, order[j]);
      SomeTaskMoves(c, s, adj, order, j);
    }
  }

  lemma PlaceBefore(adj: Adjacency, order: seq<Id>, u: Id, i: nat) returns (j: nat)
    requires Topological(adj, order) && i < |order| && Edge(adj, u, order[i])
    ensures j < i && order[j] == u
  {
    assert u in Elements(order);
    j :| 0 <= j < |order| && order[j] == u;
  }

  lemma UnpublishedIsUnfinished(c: Config, s: State, x: Id)
    requires Inv(c, s) && s.live && !s.timedOut && x in s.pc && x !in s.futures
    ensures s.pc[x] != Finished
  {
    assert TaskInv(c, s, x);
  }

  /** In every reachable state of an unfinished execution something can happen without a deadline. */
  lemma NoDeadlock(c: Config, s: State, adj: Adjacency)
    requires ValidConfig(c) && WaitsFollow(c, adj) && Inv(c, s) && s.live && !s.done
    requires adj.Keys == c.steps.Keys && WellFormed(adj) && Acyclic(adj)
    ensures CanMove(c, s) || Enabled(c, s, Complete)
  {
    if !Enabled(c, s, Complete) {
      var id :| id in s.pc && s.pc[id] != Finished;
      GreedyCompleteIffAcyclic(adj);
      var order := Greedy(adj, adj.Keys);
      assert id in Elements(order);
      var i :| 0 <= i < |order| && order[i] == id;
      SomeTaskMoves(c, s, adj, order, i);
    }
  }

  // ----- Termination -----

  /** An upper bound on the events a task still has before it. */
  ghost function Rank(c: Config, id: Id, pc: Pc): int
    requires id in c.steps
  {
    var entry := 6 * c.maxAttempts + 8;
    match pc
    case Queued => entry + 2 + |StepActions(c, id)|
    case AwaitingControllers => entry + 1 + |StepActions(c, id)|
    case Resolving(pending) => entry + |pending|
    case WantsGlobal(a) => 6 * (c.maxAttempts - a) + 7
    case WantsTool(a) => 6 * (c.maxAttempts - a) + 6
    case Holding(a) => 6 * (c.maxAttempts - a) + 5
    case Calling(a) => 6 * (c.maxAttempts - a) + 4
    case BackingOff(a) => 6 * (c.maxAttempts - a) + 3
    case Persisting => 1
    case Finished => 0
  }

  lemma RankBounds(c: Config, s: State, id: Id)
    requires id in c.steps && id in s.pc && TaskInv(c, s, id)
    ensures 0 <= Rank(c, id, s.pc[id]) <= Rank(c, id, Queued)
    ensures Rank(c, id, s.pc[id]) == 0 <==> s.pc[id] == Finished
    ensures s.pc[id] != Finished && s.pc[id] != Persisting ==> Rank(c, id, s.pc[id]) > 1
  {
  }

  /** Program order of one task: references before slots, the global slot before the tool's, both before the call. */
  ghost predicate Successor(c: Config, id: Id, p: Pc, q: Pc)
    requires id in c.steps
  {
    match p
    case Queued => q == Finished || q == AwaitingControllers || q == Persisting || q == Resolving(StepActions(c, id))
    case AwaitingControllers => q == Persisting || q == Resolving(StepActions(c, id))
    case Resolving(pending) =>
      q == Persisting || (if pending == [] then q == WantsGlobal(1) else q == Resolving(pending[1..]))
    case WantsGlobal(a) => q == if id in c.toolKey then WantsTool(a) else Holding(a)
    case WantsTool(a) => q == Holding(a)
    case Holding(a) => q == Calling(a)
    case Calling(a) => q == Persisting || (q == BackingOff(a) && a < c.maxAttempts)
    case BackingOff(a) => q == WantsGlobal(a + 1)
    case Persisting => q == Finished
    case Finished => false
  }

  lemma FailedCallOrder(c: Config, s: State, id: Id, ptr: Pointer, retryable: bool)
    requires id in c.steps && id in s.pc && s.pc[id].Calling?
    ensures var s' := FailCall(c, s, id, ptr, retryable); id in s'.pc && Successor(c, id, s.pc[id], s'.pc[id])
  {
    var s' := FailCall(c, s, id, ptr, retryable);
    assert !(retryable && s.pc[id].attempt < c.maxAttempts) ==> EndsTask(Release(c, s, id), s', id);
  }

  lemma AttemptOrder(c: Config, s: State, id: Id, act: Act)
    requires TaskEnabled(c, s, id, act) && s.pc[id].Attempting()
    ensures id in TaskStep(c, s, id, act).pc && Successor(c, id, s.pc[id], TaskStep(c, s, id, act).pc[id])
  {
    if act.Raise? {
      FailedCallOrder(c, s, id, act.ptr, act.retryable);
    } else if act.Return? {
      assert EndsTask(Release(c, s, id), TaskStep(c, s, id, act), id);
    } else {
      SlotOrder(c, s, id, act);
    }
  }

  lemma SlotOrder(c: Config, s: State, id: Id, act: Act)
    requires TaskEnabled(c, s, id, act) && s.pc[id].Attempting() && !act.Raise? && !act.Return?
    ensures id in TaskStep(c, s, id, act).pc && Successor(c, id, s.pc[id], TaskStep(c, s, id, act).pc[id])
  {
    var s' := TaskStep(c, s, id, act);
    var a := s.pc[id].attempt;
    if act.TakeGlobal? {
      assert s'.pc == s.pc[id := if id in c.toolKey then WantsTool(a) else Holding(a)];
    } else if act.TakeTool? {
      assert s'.pc == s.pc[id := Holding(a)];
    } else if act.Call? {
      assert s'.pc == s.pc[id := Calling(a)];
    } else {
      assert s'.pc == s.pc[id := WantsGlobal(a + 1)];
    }
  }

  lemma StartOrder(c: Config, s: State, id: Id, act: Act)
    requires TaskEnabled(c, s, id, act) && act.Start?
    ensures id in TaskStep(c, s, id, act).pc && Successor(c, id, s.pc[id], TaskStep(c, s, id, act).pc[id])
  {
    StartPlaces(c, s, id, act.ptr);
  }

  lemma StartPlaces(c: Config, s: State, id: Id, ptr: Pointer)
    requires id in c.steps
    ensures var s' := StartTask(c, s, id, ptr); id in s'.pc && Successor(c, id, Queued, s'.pc[id])
  {
    if !(id in s.status && s.status[id].status.Terminal()) && Controllers(c, id) == {} {
      assert StartTask(c, s, id, ptr) == PassGate(c, s, id, ptr);
    }
  }

  lemma GateOrder(c: Config, s: State, id: Id, act: Act)
    requires TaskEnabled(c, s, id, act) && act.Gate?
    ensures id in TaskStep(c, s, id, act).pc && Successor(c, id, s.pc[id], TaskStep(c, s, id, act).pc[id])
  {
  }

  lemma ProgramOrder(c: Config, s: State, id: Id, act: Act)
    requires TaskEnabled(c, s, id, act)
    ensures id in TaskStep(c, s, id, act).pc && Successor(c, id, s.pc[id], TaskStep(c, s, id, act).pc[id])
  {
    if s.pc[id].Attempting() {
      AttemptOrder(c, s, id, act);
    } else if act.Start? {
      StartOrder(c, s, id, act);
    } else if act.Gate? {
      GateOrder(c, s, id, act);
    }
  }

  lemma SuccessorDescends(c: Config, s: State, id: Id, q: Pc)
    requires id in c.steps && id in s.pc && TaskInv(c, s, id) && Successor(c, id, s.pc[id], q)
    ensures Rank(c, id, q) < Rank(c, id, s.pc[id])
  {
  }

  ghost function Total(c: Config, pc: map<Id, Pc>, order: seq<Id>): int
    requires forall id :: id in order ==> id in c.steps && id in pc
  {
    if order == [] then 0 else Rank(c, order[0], pc[order[0]]) + Total(c, pc, order[1..])
  }

  lemma {:induction false} TotalDescends(c: Config, pc: map<Id, Pc>, pc': map<Id, Pc>, order: seq<Id>, n: nat)
    requires forall id :: id in order ==>
      id in c.steps && id in pc && id in pc' && Rank(c, id, pc'[id]) <= Rank(c, id, pc[id])
    ensures Total(c, pc', order) <= Total(c, pc, order)
    ensures n < |order| && Rank(c, order[n], pc'[order[n]]) < Rank(c, order[n], pc[order[n]])
        ==> Total(c, pc', order) < Total(c, pc, order)
  {
    if order != [] {
      TotalDescends(c, pc, pc', order[1..], if n > 0 then n - 1 else |order|);
    }
  }

  ghost function Measure(c: Config, s: State, order: seq<Id>): int
    requires forall id :: id in order ==> id in c.steps && id in s.pc
  {
    Total(c, s.pc, order) + if s.done then 0 else 1
  }

  lemma {:induction false} TotalNonNegative(c: Config, s: State, order: seq<Id>)
    requires Inv(c, s) && s.live && forall id :: id in order ==> id in c.steps
    ensures Total(c, s.pc, order) >= 0
  {
    if order != [] {
      assert TaskInv(c, s, order[0]);
      RankBounds(c, s, order[0]);
      TotalNonNegative(c, s, order[1..]);
    }
  }

  lemma TaskShrinks(c: Config, s: State, id: Id, act: Act, order: seq<Id>)
    requires ValidConfig(c) && Inv(c, s) && TaskEnabled(c, s, id, act) && Elements(order) == c.steps.Keys
    ensures TaskStep(c, s, id, act).pc.Keys == c.steps.Keys
    ensures forall x :: x in order ==> x in Elements(order)
    ensures Total(c, TaskStep(c, s, id, act).pc, order) < Total(c, s.pc, order)
  {
    TaskIsLocal(c, s, id, act);
    assert TaskInv(c, s, id);
    ProgramOrder(c, s, id, act);
    SuccessorDescends(c, s, id, TaskStep(c, s, id, act).pc[id]);
    OneDescends(c, s.pc, TaskStep(c, s, id, act).pc, order, id);
  }

  lemma OneDescends(c: Config, pc: map<Id, Pc>, pc': map<Id, Pc>, order: seq<Id>, id: Id)
    requires Elements(order) == c.steps.Keys == pc.Keys == pc'.Keys && id in pc
    requires forall x :: x in pc && x != id ==> Rank(c, x, pc'[x]) <= Rank(c, x, pc[x])
    requires Rank(c, id, pc'[id]) < Rank(c, id, pc[id])
    ensures forall x :: x in order ==> x in Elements(order)
    ensures Total(c, pc', order) < Total(c, pc, order)
  {
    assert id in Elements(order);
    var n :| 0 <= n < |order| && order[n] == id;
    assert forall x :: x in order ==> x in Elements(order);
    TotalDescends(c, pc, pc', order, n);
  }

  lemma FinishingDescends(c: Config, s: State, pc': map<Id, Pc>)
    requires Inv(c, s) && s.live && pc' == map x | x in s.pc :: Finished
    ensures forall x :: x in s.pc ==> Rank(c, x, pc'[x]) <= Rank(c, x, s.pc[x])
    ensures forall x :: x in s.pc && s.pc[x] != Finished ==> Rank(c, x, pc'[x]) < Rank(c, x, s.pc[x])
  {
    forall x | x in s.pc ensures x in c.steps && AtMostRank(c, x, Finished, s.pc[x]) {
      assert TaskInv(c, s, x);
      RankBounds(c, s, x);
    }
    assert forall x :: x in s.pc ==> AtMostRank(c, x, pc'[x], s.pc[x]);
  }

  /** Equal only where nothing is left to do. */
  ghost predicate AtMostRank(c: Config, x: Id, p: Pc, q: Pc)
    requires x in c.steps
  {
    Rank(c, x, p) <= Rank(c, x, q) && (q != Finished ==> Rank(c, x, p) < Rank(c, x, q))
  }

  lemma TimeOutShrinks(c: Config, s: State, pointers: map<Id, Pointer>, order: seq<Id>)
    requires Inv(c, s) && Enabled(c, s, TimeOut(pointers)) && Elements(order) == c.steps.Keys
    ensures MarkTimeouts(c, s, pointers).pc.Keys == c.steps.Keys
    ensures forall x :: x in order ==> x in Elements(order)
    ensures Total(c, MarkTimeouts(c, s, pointers).pc, order) < Total(c, s.pc, order)
  {
    var pc' := MarkTimeouts(c, s, pointers).pc;
    assert pc' == map x | x in s.pc :: Finished;
    FinishingDescends(c, s, pc');
    var id :| id in s.pc && s.pc[id] != Finished;
    OneDescends(c, s.pc, pc', order, id);
  }

  // ----- Whole executions -----

  /** Consecutive events of one execution, from its launch or from any later reachable state. */
  ghost predicate IsExecution(c: Config, states: seq<State>, events: seq<Event>)
  {
    && |states| == |events| + 1
    && Inv(c, states[0]) && states[0].live
    && forall i {:trigger StepAt(c, states, events, i)} ::
         0 <= i < |events| ==> StepAt(c, states, events, i) && events[i].WithinExecution()
  }

  lemma StepShrinks(c: Config, s: State, e: Event, order: seq<Id>)
    requires ValidConfig(c) && Inv(c, s) && Enabled(c, s, e) && e.WithinExecution() && Elements(order) == c.steps.Keys
    ensures var s' := Step(c, s, e); Inv(c, s') && s'.live && s'.pc.Keys == c.steps.Keys
    ensures forall x :: x in order ==> x in Elements(order)
    ensures Measure(c, Step(c, s, e), order) < Measure(c, s, order)
  {
    StepKeepsInv(c, s, e);
    assert forall x :: x in order ==> x in Elements(order);
    match e {
      case Task(id, act) =>
        TaskShrinks(c, s, id, act, order);
        TaskIsLocal(c, s, id, act);
      case TimeOut(pointers) => TimeOutShrinks(c, s, pointers, order);
      case Complete =>
    }
  }

  /** Inside an execution, with every step's task there. */
  ghost predicate Underway(c: Config, s: State)
  {
    Inv(c, s) && s.live && s.pc.Keys == c.steps.Keys
  }

  lemma ExecutionStep(c: Config, states: seq<State>, events: seq<Event>, order: seq<Id>, n: nat)
    requires ValidConfig(c) && IsExecution(c, states, events) && Elements(order) == c.steps.Keys && n < |events|
    requires Underway(c, states[n])
    ensures Underway(c, states[n + 1])
    ensures forall x :: x in order ==> x in Elements(order)
    ensures Measure(c, states[n + 1], order) < Measure(c, states[n], order)
  {
    assert StepAt(c, states, events, n);
    StepShrinks(c, states[n], events[n], order);
  }

  lemma {:induction false} ExecutionShrinks(c: Config, states: seq<State>, events: seq<Event>, order: seq<Id>, n: nat)
    requires ValidConfig(c) && IsExecution(c, states, events) && Elements(order) == c.steps.Keys && n < |states|
    ensures Underway(c, states[0]) && Underway(c, states[n])
    ensures forall x :: x in order ==> x in Elements(order)
    ensures Measure(c, states[n], order) + n <= Measure(c, states[0], order)
  {
    assert forall x :: x in order ==> x in Elements(order);
    if n > 0 {
      ExecutionShrinks(c, states, events, order, n - 1);
      ExecutionStep(c, states, events, order, n - 1);
    }
  }

  /** No event of the execution is left. */
  ghost predicate Stopped(c: Config, s: State)
  {
    forall e: Event :: e.WithinExecution() ==> !Enabled(c, s, e)
  }

  /** The final checkpoint is written and every future is resolved, unless the deadline struck. */
  ghost predicate Settled(c: Config, s: State)
  {
    && s.done && s.pc.Keys == c.steps.Keys && (forall id :: id in s.pc ==> s.pc[id] == Finished)
    && c.steps.Keys <= s.status.Keys && (s.timedOut || c.steps.Keys <= s.futures.Keys)
  }

  lemma StoppedIsSettled(c: Config, s: State, adj: Adjacency)
    requires ValidConfig(c) && WaitsFollow(c, adj) && adj.Keys == c.steps.Keys && WellFormed(adj) && Acyclic(adj)
    requires Inv(c, s) && s.live && Stopped(c, s)
    ensures Settled(c, s)
  {
    if !s.done {
      NoDeadlock(c, s, adj);
      assert !Enabled(c, s, Complete);
      var id, act :| TaskEnabled(c, s, id, act);
      assert Enabled(c, s, Task(id, act));
    }
    DoneIsSettled(c, s);
  }

  lemma DoneIsSettled(c: Config, s: State)
    requires Inv(c, s) && s.live && s.done
    ensures Settled(c, s)
  {
    forall id | id in c.steps ensures id in s.status && (s.timedOut || id in s.futures) {
      assert TaskInv(c, s, id);
    }
  }

  /** A bound on the number of events that depends on the macro alone. */
  ghost function Bound(c: Config, order: seq<Id>): int
    requires forall id :: id in order ==> id in c.steps
  {
    Total(c, map id | id in c.steps :: Queued, order) + 1
  }

  /**
    Every execution is finite, whatever the interleaving, and one that cannot be continued
    is settled.
   */
  lemma EveryExecutionFinishes(c: Config, adj: Adjacency, states: seq<State>, events: seq<Event>, order: seq<Id>)
    requires ValidConfig(c) && WaitsFollow(c, adj) && adj.Keys == c.steps.Keys && WellFormed(adj)
    requires Topological(adj, order)
    requires IsExecution(c, states, events) && forall id :: id in order ==> id in c.steps
    ensures |events| <= Bound(c, order)
    ensures Stopped(c, states[|events|]) ==> Settled(c, states[|events|])
  {
    ExecutionShrinks(c, states, events, order, |events|);
    TotalNonNegative(c, states[|events|], order);
    QueuedBound(c, states[0], order);
    if Stopped(c, states[|events|]) {
      TopologicalImpliesAcyclic(adj, order);
      StoppedIsSettled(c, states[|events|], adj);
    }
  }

  lemma QueuedBound(c: Config, s: State, order: seq<Id>)
    requires Inv(c, s) && s.live && Elements(order) == c.steps.Keys
    ensures forall x :: x in order ==> x in Elements(order)
    ensures Total(c, s.pc, order) <= Total(c, map id | id in c.steps :: Queued, order)
  {
    assert forall x :: x in order ==> x in Elements(order);
    forall x | x in order ensures Rank(c, x, s.pc[x]) <= Rank(c, x, Queued) {
      assert TaskInv(c, s, x);
      RankBounds(c, s, x);
    }
    TotalDescends(c, map id | id in c.steps :: Queued, s.pc, order, |order|);
  }
}
