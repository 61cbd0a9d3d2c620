/** Joins the validator to the executor: what an accepted macro guarantees about every run. */
module ValidatedRuns {
  import opened Wrappers
  import opened Sorting
  import opened Graph
  import opened Scheduler
  import opened SchedulerSafety
  import opened SchedulerRuns
  import opened SchedulerProgress
  import opened CircularWaits
  import opened Deadlocks
  import M = Macro

  /** The executor runs exactly the steps of the request. */
  ghost predicate Executes(c: Config, r: M.Request)
  {
    c.steps.Keys == M.Ids(r.steps) && forall s :: s in r.steps ==> c.steps[s.stepId] == s
  }

  // ----- Every wait the executor makes was seen by the validator, but for bare references -----

  lemma {:induction false} AwaitedIsReferenced(v: M.Value, depth: nat, limit: nat, id: Id)
    requires Await(id) in Actions(v, depth, limit) && id != ""
    ensures id in M.References(v)
    decreases v
  {
    match v
    case Str(text) =>
    case Scalar =>
    case Dict(_, items) => AllAwaitedAreReferenced(items, depth + 1, limit, id);
    case List(items) => AllAwaitedAreReferenced(items, depth + 1, limit, id);
  }

  lemma {:induction false} AllAwaitedAreReferenced(items: seq<M.Value>, depth: nat, limit: nat, id: Id)
    requires Await(id) in AllActions(items, depth, limit) && id != ""
    ensures id in M.AllReferences(items)
    decreases items
  {
    if items != [] {
      var init, last := items[..|items| - 1], items[|items| - 1];
      if Await(id) in AllActions(init, depth, limit) {
        AllAwaitedAreReferenced(init, depth, limit, id);
      } else {
        AwaitedIsReferenced(last, depth, limit, id);
      }
    }
  }

  /** A step awaits the empty id although the graph has no edge for it. */
  ghost predicate UncheckedWait(c: Config, r: M.Request, id: Id)
    requires id in c.steps
  {
    "" in c.steps && Await("") in StepActions(c, id) && !Edge(M.DependencyGraph(r.steps), "", id)
  }

  lemma StepWaitsFollow(c: Config, r: M.Request, id: Id)
    requires M.WellFormedRequest(r) && Executes(c, r) && id in c.steps
    ensures forall ctrl :: ctrl in Controllers(c, id) ==> Edge(M.DependencyGraph(r.steps), ctrl, id)
    ensures forall a :: a in StepActions(c, id) && a.Await? && a.id in c.steps && a.id != ""
                    ==> Edge(M.DependencyGraph(r.steps), a.id, id)
  {
    M.GraphWellFormed(r.steps);
    var ids := M.Ids(r.steps);
    forall ctrl | ctrl in Controllers(c, id) ensures Edge(M.DependencyGraph(r.steps), ctrl, id) {
      var s := c.steps[ctrl];
      assert s in r.steps && s.stepId == ctrl by { StepListed(c, r, ctrl); }
      assert (ctrl, id) in M.StepEdges(s, ids);
    }
    forall a | a in StepActions(c, id) && a.Await? && a.id in c.steps && a.id != ""
      ensures Edge(M.DependencyGraph(r.steps), a.id, id)
    {
      var s := c.steps[id];
      StepListed(c, r, id);
      AllAwaitedAreReferenced(M.Values(s), 0, c.resolutionDepth, a.id);
      assert (a.id, id) in M.StepEdges(s, ids);
    }
  }

  lemma StepListed(c: Config, r: M.Request, id: Id)
    requires Executes(c, r) && id in c.steps
    ensures c.steps[id] in r.steps && c.steps[id].stepId == id
  {
    var s :| s in r.steps && s.stepId == id;
  }

  /** The waits follow checked edges exactly when no bare reference names a step with an empty id unseen. */
  lemma WaitsFollowIff(c: Config, r: M.Request)
    requires M.WellFormedRequest(r) && Executes(c, r)
    ensures WaitsFollow(c, M.DependencyGraph(r.steps)) <==> forall id :: id in c.steps ==> !UncheckedWait(c, r, id)
    ensures "" !in c.steps ==> WaitsFollow(c, M.DependencyGraph(r.steps))
  {
    forall id | id in c.steps
      ensures forall ctrl :: ctrl in Controllers(c, id) ==> Edge(M.DependencyGraph(r.steps), ctrl, id)
      ensures forall a :: a in StepActions(c, id) && a.Await? && a.id in c.steps && a.id != "" ==>
        Edge(M.DependencyGraph(r.steps), a.id, id)
    {
      StepWaitsFollow(c, r, id);
    }
  }

  /** Every edge of the wait graph is one the validator looked at. */
  lemma CheckedWaitsAcyclic(c: Config, r: M.Request)
    requires Executes(c, r) && M.Admissible(r) && forall id :: id in c.steps ==> !UncheckedWait(c, r, id)
    ensures Acyclic(WaitGraph(c))
  {
    WaitsFollowIff(c, r);
    forall p ensures !Cycle(WaitGraph(c), p) {
      if Cycle(WaitGraph(c), p) {
        forall i | 0 <= i < |p| - 1 ensures Edge(M.DependencyGraph(r.steps), p[i], p[i + 1]) {
          assert Edge(WaitGraph(c), p[i], p[i + 1]);
        }
        assert Cycle(M.DependencyGraph(r.steps), p);
      }
    }
  }

  /**
    The joint theorem: for every accepted macro without an unchecked wait - in particular whenever
    no step id is empty - every execution is finite and ends settled.
   */
  lemma AcceptedMacrosFinish(c: Config, r: M.Request, states: seq<State>, events: seq<Event>) returns (order: seq<Id>)
    requires ValidConfig(c) && Executes(c, r) && M.Admissible(r)
    requires forall id :: id in c.steps ==> !UncheckedWait(c, r, id)
    requires IsExecution(c, states, events)
    ensures Topological(WaitGraph(c), order) && EventsWithin(c, events, order)
    ensures Stopped(c, states[|events|]) ==> Settled(c, states[|events|])
  {
    CheckedWaitsAcyclic(c, r);
    order := AcyclicWaitsFinish(c, states, events);
  }

  // ----- The exception is real -----

  const SelfWaiting := M.Step("", "tool", [("value", M.Str("$step:"))], None, false)

  function SelfWaitingConfig(): Config
  {
    Config(map["" := SelfWaiting], 3, 32, false, 8, map[], map[])
  }

  lemma SelfWaitingFacts()
    ensures M.AllReferences(M.Values(SelfWaiting)) == {}
    ensures AllActions(M.Values(SelfWaiting), 0, 32) == [Await("")]
  {
    var v := M.Str("$step:");
    assert M.Values(SelfWaiting) == [v];
    assert M.References(v) == {} && Actions(v, 0, 32) == [Await("")];
    assert [v][..0] == [];
  }

  lemma SelfWaitingAccepted()
    ensures M.Admissible(M.Request([SelfWaiting], map[]))
  {
    SelfWaitingFacts();
    var steps := [SelfWaiting];
    assert M.Ids(steps) == {""};
    assert M.StepEdges(SelfWaiting, {""}) == {};
    assert M.DependencyEdges(steps, {""}) == {};
    var adj := M.DependencyGraph(steps);
    assert Topological(adj, [""]);
    TopologicalImpliesAcyclic(adj, [""]);
  }

  lemma SelfWaitingBlocks()
    ensures var c := SelfWaitingConfig(); ValidConfig(c) && NoEarlyExit(c) && SelfBlocking(c, {""})
    ensures Executes(SelfWaitingConfig(), M.Request([SelfWaiting], map[]))
  {
    SelfWaitingFacts();
    var c := SelfWaitingConfig();
    assert Controllers(c, "") == {};
    assert StepActions(c, "") == [Await("")];
    assert WaitsFirst(c, {""}, "");
    assert M.Ids([SelfWaiting]) == {""};
  }

  /**
    A step with an empty id and a bare `$step:` argument is accepted, and then waits for itself: it
    is never published or persisted and no execution is ever done, in any run.
   */
  lemma BareReferenceDeadlocks(approvals: map<Id, M.Decision>, states: seq<State>, events: seq<Event>, n: nat)
    requires IsRun(SelfWaitingConfig(), approvals, states, events) && n < |states|
    ensures M.Admissible(M.Request([SelfWaiting], map[]))
    ensures Executes(SelfWaitingConfig(), M.Request([SelfWaiting], map[]))
    ensures !states[n].done && "" !in states[n].status && "" !in states[n].checkpoint.status
  {
    SelfWaitingAccepted();
    SelfWaitingBlocks();
    SelfBlockingNeverSettles(SelfWaitingConfig(), approvals, states, events, {""}, n);
    assert Untouched(SelfWaitingConfig(), states[n], "");
  }
}
