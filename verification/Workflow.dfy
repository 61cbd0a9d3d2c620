/** Persisted workflow graphs and their compilation to macros (eap/protocol/models.py). */
module Workflow {
  import opened Sorting
  import opened Graph
  import Text
  import M = Macro

  datatype Kind = Dependency | BranchTrue | BranchFalse | BranchFallback

  datatype Node = Node(nodeId: Id, step: M.Step)

  datatype Link = Link(source: Id, target: Id, kind: Kind)

  datatype Workflow = Workflow(workflowId: string, nodes: seq<Node>, links: seq<Link>)

  function NodeIds(w: Workflow): set<Id>
  {
    set n | n in w.nodes :: n.nodeId
  }

  /** The dictionary from node id to node; unique ids make it total on the node list. */
  function NodeMap(nodes: seq<Node>): map<Id, Node>
  {
    if nodes == [] then map[] else NodeMap(nodes[..|nodes| - 1])[nodes[|nodes| - 1].nodeId := nodes[|nodes| - 1]]
  }

  function Listed(b: M.Branching, kind: Kind): seq<Id>
    requires kind != Dependency
  {
    match kind
    case BranchTrue => b.onTrue
    case BranchFalse => b.onFalse
    case BranchFallback => b.onError
  }

  function Declared(step: M.Step, kind: Kind): set<Id>
    requires step.branching.Some? && kind != Dependency
  {
    set t | t in Listed(step.branching.value, kind)
  }

  /** Step ids reached by the branch edges of one kind out of a node. */
  ghost function Drawn(w: Workflow, nodeId: Id, kind: Kind): set<Id>
  {
    var byId := NodeMap(w.nodes);
    set l | l in w.links && l.source == nodeId && l.kind == kind && l.target in byId :: byId[l.target].step.stepId
  }

  ghost predicate DistinctNodes(nodes: seq<Node>)
  {
    forall i, j :: 0 <= i < j < |nodes| ==>
      nodes[i].nodeId != nodes[j].nodeId && nodes[i].step.stepId != nodes[j].step.stepId
  }

  predicate NodesNamed(nodes: seq<Node>)
  {
    forall i :: 0 <= i < |nodes| ==> !Text.Blank(nodes[i].nodeId)
  }

  ghost predicate LinkKnown(w: Workflow, l: Link)
  {
    && l.source in NodeIds(w) && l.target in NodeIds(w) && l.source != l.target
    && (l.kind != Dependency ==> l.source in NodeMap(w.nodes) && NodeMap(w.nodes)[l.source].step.branching.Some?)
  }

  ghost predicate BranchesMatch(w: Workflow, n: Node)
  {
    n.step.branching.Some? ==> forall k: Kind :: k != Dependency ==> Drawn(w, n.nodeId, k) == Declared(n.step, k)
  }

  ghost predicate WellDrawn(w: Workflow)
  {
    && !Text.Blank(w.workflowId) && w.nodes != [] && NodesNamed(w.nodes) && DistinctNodes(w.nodes)
    && (forall l :: l in w.links ==> LinkKnown(w, l))
    && (forall n :: n in w.nodes ==> BranchesMatch(w, n))
  }

  ghost function DependencyPairs(links: seq<Link>): set<(Id, Id)>
  {
    set l | l in links && l.kind == Dependency :: (l.source, l.target)
  }

  ghost function NodeGraph(w: Workflow): Adjacency
  {
    AdjacencyOf(NodeIds(w), DependencyPairs(w.links))
  }

  lemma {:induction false} NodeMapFinds(nodes: seq<Node>)
    requires DistinctNodes(nodes)
    ensures NodeMap(nodes).Keys == set n | n in nodes :: n.nodeId
    ensures forall n :: n in nodes ==> NodeMap(nodes)[n.nodeId] == n
  {
    if nodes != [] {
      var init, last := nodes[..|nodes| - 1], nodes[|nodes| - 1];
      NodeMapFinds(init);
      LastIsNew(nodes);
      var byId := NodeMap(init);
      assert NodeMap(nodes) == byId[last.nodeId := last];
      forall n | n in nodes ensures n == last || n in init {
        LastOrEarlier(nodes, n);
      }
    }
  }

  lemma LastOrEarlier(nodes: seq<Node>, n: Node)
    requires n in nodes
    ensures n == nodes[|nodes| - 1] || n in nodes[..|nodes| - 1]
  {
  }

  lemma LastIsNew(nodes: seq<Node>)
    requires DistinctNodes(nodes) && nodes != []
    ensures DistinctNodes(nodes[..|nodes| - 1])
    ensures forall n :: n in nodes[..|nodes| - 1] ==> n in nodes && n.nodeId != nodes[|nodes| - 1].nodeId
  {
    var init := nodes[..|nodes| - 1];
    forall n | n in init ensures n in nodes && n.nodeId != nodes[|nodes| - 1].nodeId {
      var i :| 0 <= i < |init| && init[i] == n;
      assert nodes[i] == n;
    }
  }

  // ----- Compilation -----

  /** Dependency edges in list order. */
  method DependencyEdgeList(links: seq<Link>) returns (edges: seq<(Id, Id)>)
    ensures Elements(edges) == DependencyPairs(links)
  {
    edges := [];
    for k := 0 to |links|
      invariant Elements(edges) == DependencyPairs(links[..k])
    {
      assert links[..k + 1] == links[..k] + [links[k]];
      if links[k].kind == Dependency {
        assert Elements(edges + [(links[k].source, links[k].target)])
          == Elements(edges) + {(links[k].source, links[k].target)};
        edges := edges + [(links[k].source, links[k].target)];
      }
    }
    assert links[..|links|] == links;
  }

  /** The sorted-frontier pass over the dependency edges. */
  method OrderNodes(w: Workflow) returns (ordered: seq<Id>)
    requires forall l :: l in w.links ==> l.source in NodeIds(w) && l.target in NodeIds(w)
    ensures ordered == Greedy(NodeGraph(w), NodeIds(w))
    ensures |ordered| == |NodeIds(w)| <==> Acyclic(NodeGraph(w))
    ensures Acyclic(NodeGraph(w)) ==> Topological(NodeGraph(w), ordered)
  {
    var edges := DependencyEdgeList(w.links);
    forall e | e in edges ensures e.0 in NodeIds(w) && e.1 in NodeIds(w) {
      assert e in Elements(edges);
    }
    var adj, degree := BuildGraph(NodeIds(w), edges);
    NodeGraphWellFormed(w);
    ordered := Kahn(adj, degree);
    OrderCovers(w);
  }

  lemma OrderCovers(w: Workflow)
    requires forall l :: l in w.links ==> l.source in NodeIds(w) && l.target in NodeIds(w)
    ensures |Greedy(NodeGraph(w), NodeIds(w))| == |NodeIds(w)| <==> Acyclic(NodeGraph(w))
    ensures Acyclic(NodeGraph(w)) ==> Topological(NodeGraph(w), Greedy(NodeGraph(w), NodeIds(w)))
  {
    NodeGraphWellFormed(w);
    GreedyCompleteIffAcyclic(NodeGraph(w));
  }

  function StepsFor(byId: map<Id, Node>, order: seq<Id>): seq<M.Step>
    requires forall id :: id in order ==> id in byId
  {
    seq(|order|, i requires 0 <= i < |order| => byId[order[i]].step)
  }

  /** The steps a well-drawn acyclic graph compiles to. */
  ghost function Compiled(w: Workflow): seq<M.Step>
    requires WellDrawn(w)
  {
    NodeMapFinds(w.nodes);
    GreedyShape(NodeGraph(w), NodeIds(w));
    var order := Greedy(NodeGraph(w), NodeIds(w));
    assert forall id :: id in order ==> id in Elements(order);
    StepsFor(NodeMap(w.nodes), order)
  }

  datatype Compilation = CyclicDependencies | Macro(request: M.Request, verdict: M.Verdict)

  /** `to_batched_macro_request`, ending with the macro's own validation. */
  method Compile(w: Workflow) returns (out: Compilation)
    requires WellDrawn(w)
    ensures out.CyclicDependencies? <==> !Acyclic(NodeGraph(w))
    ensures out.Macro? ==> out.request == M.Request(Compiled(w), map[])
    ensures out.Macro? && out.verdict.Rejected? ==> out.verdict.error in {M.TooDeep, M.Cyclic}
  {
    NodeMapFinds(w.nodes);
    var ordered := OrderNodes(w);
    NodeCount(w);
    if |ordered| != |w.nodes| {
      return CyclicDependencies;
    }
    assert forall id :: id in ordered ==> id in Elements(ordered);
    var request := M.Request(StepsFor(NodeMap(w.nodes), ordered), map[]);
    CompiledIsWellFormed(w);
    var verdict := M.Validate(request);
    out := Macro(request, verdict);
  }

  lemma NodeCount(w: Workflow)
    requires DistinctNodes(w.nodes)
    ensures |NodeIds(w)| == |w.nodes|
  {
    var ids := seq(|w.nodes|, i requires 0 <= i < |w.nodes| => w.nodes[i].nodeId);
    DistinctCount(ids);
    assert NodeIds(w) == Elements(ids) by {
      forall x | x in NodeIds(w) ensures x in ids {
        var i :| 0 <= i < |w.nodes| && w.nodes[i].nodeId == x;
        assert ids[i] == x;
      }
    }
  }

  // ----- Validation -----

  datatype GraphVerdict = Valid | Invalid | CyclicGraph

  /** The dictionaries of node and step ids; stops at the first repeated id. */
  method CheckNodes(nodes: seq<Node>) returns (ok: bool)
    ensures ok <==> DistinctNodes(nodes)
  {
    var nodeIds: set<Id> := {};
    var stepIds: set<Id> := {};
    for k := 0 to |nodes|
      invariant DistinctNodes(nodes[..k])
      invariant nodeIds == (set n | n in nodes[..k] :: n.nodeId)
      invariant stepIds == (set n | n in nodes[..k] :: n.step.stepId)
    {
      var n := nodes[k];
      if n.nodeId in nodeIds || n.step.stepId in stepIds {
        var m :| m in nodes[..k] && (m.nodeId == n.nodeId || m.step.stepId == n.step.stepId);
        var i :| 0 <= i < k && nodes[i] == m;
        return false;
      }
      forall i | 0 <= i < k ensures nodes[i].nodeId != n.nodeId && nodes[i].step.stepId != n.step.stepId {
        assert nodes[i] in nodes[..k];
      }
      assert nodes[..k + 1] == nodes[..k] + [n];
      nodeIds, stepIds := nodeIds + {n.nodeId}, stepIds + {n.step.stepId};
    }
    assert nodes[..|nodes|] == nodes;
    ok := true;
  }

  method CheckLinks(w: Workflow) returns (ok: bool)
    requires DistinctNodes(w.nodes)
    ensures ok <==> forall l :: l in w.links ==> LinkKnown(w, l)
  {
    NodeMapFinds(w.nodes);
    var byId := NodeMap(w.nodes);
    for k := 0 to |w.links|
      invariant forall l :: l in w.links[..k] ==> LinkKnown(w, l)
    {
      var l := w.links[k];
      assert l in w.links;
      if l.source !in byId || l.target !in byId || l.source == l.target
         || (l.kind != Dependency && byId[l.source].step.branching.None?)
      {
        return false;
      }
      assert w.links[..k + 1] == w.links[..k] + [l];
    }
    assert w.links[..|w.links|] == w.links;
    ok := true;
  }

  /** Collects the step ids the branch edges of one kind lead to. */
  method CollectDrawn(w: Workflow, nodeId: Id, kind: Kind) returns (ids: set<Id>)
    ensures ids == Drawn(w, nodeId, kind)
  {
    var byId := NodeMap(w.nodes);
    ids := set l | l in w.links && l.source == nodeId && l.kind == kind && l.target in byId ::
      byId[l.target].step.stepId;
  }

  method CheckBranches(w: Workflow) returns (ok: bool)
    ensures ok <==> forall n :: n in w.nodes ==> BranchesMatch(w, n)
  {
    for k := 0 to |w.nodes|
      invariant forall n :: n in w.nodes[..k] ==> BranchesMatch(w, n)
    {
      var n := w.nodes[k];
      assert n in w.nodes;
      if n.step.branching.Some? {
        var onTrue := CollectDrawn(w, n.nodeId, BranchTrue);
        var onFalse := CollectDrawn(w, n.nodeId, BranchFalse);
        var onError := CollectDrawn(w, n.nodeId, BranchFallback);
        if onTrue != Declared(n.step, BranchTrue) || onFalse != Declared(n.step, BranchFalse)
           || onError != Declared(n.step, BranchFallback)
        {
          return false;
        }
      }
      assert w.nodes[..k + 1] == w.nodes[..k] + [n];
    }
    assert w.nodes[..|w.nodes|] == w.nodes;
    ok := true;
  }

  /** `validate_node` on each node, then `validate_graph`: what it accepts is exactly the well-drawn acyclic graphs. */
  method ValidateGraph(w: Workflow) returns (v: GraphVerdict)
    ensures v == Valid <==> WellDrawn(w) && Acyclic(NodeGraph(w))
    ensures v == CyclicGraph <==> WellDrawn(w) && !Acyclic(NodeGraph(w))
  {
    if !NodesNamed(w.nodes) || Text.Blank(w.workflowId) || w.nodes == [] {
      return Invalid;
    }
    var ok := CheckNodes(w.nodes);
    if !ok {
      return Invalid;
    }
    ok := CheckLinks(w);
    if !ok {
      return Invalid;
    }
    ok := CheckBranches(w);
    if !ok {
      return Invalid;
    }
    var ordered := OrderNodes(w);
    v := if |ordered| != |NodeIds(w)| then CyclicGraph else Valid;
  }

  // ----- What a well-drawn graph guarantees about the macro -----

  lemma SameStepSameNode(w: Workflow, a: Node, b: Node)
    requires DistinctNodes(w.nodes) && a in w.nodes && b in w.nodes
    requires a.step.stepId == b.step.stepId || a.nodeId == b.nodeId
    ensures a == b
  {
    var i :| 0 <= i < |w.nodes| && w.nodes[i] == a;
    var j :| 0 <= j < |w.nodes| && w.nodes[j] == b;
  }

  /** The compiled list holds each node's step once. */
  lemma CompiledIdsDiffer(w: Workflow)
    requires WellDrawn(w) && Acyclic(NodeGraph(w))
    ensures M.UniqueIds(Compiled(w))
  {
    NodeMapFinds(w.nodes);
    NodeGraphWellFormed(w);
    GreedyCompleteIffAcyclic(NodeGraph(w));
    var byId := NodeMap(w.nodes);
    var order := Greedy(NodeGraph(w), NodeIds(w));
    var steps := Compiled(w);
    assert forall id :: id in order <==> id in Elements(order);
    forall i, j | 0 <= i < j < |steps| ensures steps[i].stepId != steps[j].stepId {
      var a, b := byId[order[i]], byId[order[j]];
      assert order[i] in order && order[j] in order && a in w.nodes && b in w.nodes;
      if a.step.stepId == b.step.stepId {
        SameStepSameNode(w, a, b);
      }
    }
  }

  lemma CompiledIsPermutation(w: Workflow)
    requires WellDrawn(w) && Acyclic(NodeGraph(w))
    ensures M.UniqueIds(Compiled(w)) && |Compiled(w)| == |w.nodes|
    ensures forall s :: s in Compiled(w) <==> exists n :: n in w.nodes && n.step == s
  {
    CompiledIdsDiffer(w);
    CompiledMembers(w);
    NodeCount(w);
    NodeGraphWellFormed(w);
    GreedyCompleteIffAcyclic(NodeGraph(w));
  }

  lemma CompiledMembers(w: Workflow)
    requires WellDrawn(w) && Acyclic(NodeGraph(w))
    ensures forall s :: s in Compiled(w) <==> exists n :: n in w.nodes && n.step == s
  {
    NodeMapFinds(w.nodes);
    NodeGraphWellFormed(w);
    GreedyCompleteIffAcyclic(NodeGraph(w));
    var byId := NodeMap(w.nodes);
    var order := Greedy(NodeGraph(w), NodeIds(w));
    var steps := Compiled(w);
    assert forall id :: id in order <==> id in Elements(order);
    StepsCover(w.nodes, byId, order);
  }

  lemma StepsCover(nodes: seq<Node>, byId: map<Id, Node>, order: seq<Id>)
    requires forall id :: id in order ==> id in byId && byId[id] in nodes
    requires forall n :: n in nodes ==> n.nodeId in order && n.nodeId in byId && byId[n.nodeId] == n
    ensures forall s :: s in StepsFor(byId, order) <==> exists n :: n in nodes && n.step == s
  {
    var steps := StepsFor(byId, order);
    forall n | n in nodes ensures n.step in steps {
      var i :| 0 <= i < |order| && order[i] == n.nodeId;
      assert steps[i] == n.step;
    }
    forall s | s in steps ensures exists n :: n in nodes && n.step == s {
      var i :| 0 <= i < |steps| && steps[i] == s;
      assert order[i] in order && byId[order[i]] in nodes;
    }
  }

  lemma NodeGraphWellFormed(w: Workflow)
    requires forall l :: l in w.links ==> l.source in NodeIds(w) && l.target in NodeIds(w)
    ensures WellFormed(NodeGraph(w)) && NodeGraph(w).Keys == NodeIds(w)
  {
    AdjacencyEdges(NodeIds(w), DependencyPairs(w.links));
  }

  /** A declared branch target is the step of another node of the graph. */
  lemma TargetIsAnotherNode(w: Workflow, n: Node, t: Id) returns (m: Node)
    requires WellDrawn(w) && n in w.nodes && t in n.step.Targets()
    ensures m in w.nodes && m.step.stepId == t && t != n.step.stepId
  {
    NodeMapFinds(w.nodes);
    var byId := NodeMap(w.nodes);
    var b := n.step.branching.value;
    var kind := if t in b.onTrue then BranchTrue else if t in b.onFalse then BranchFalse else BranchFallback;
    assert BranchesMatch(w, n) && t in Declared(n.step, kind);
    assert t in Drawn(w, n.nodeId, kind);
    var l :| l in w.links && l.source == n.nodeId && l.kind == kind && l.target in byId
      && byId[l.target].step.stepId == t;
    assert LinkKnown(w, l);
    m := byId[l.target];
    if t == n.step.stepId {
      SameStepSameNode(w, m, n);
    }
  }

  /** An edge of one kind from a node to the node of step `t`. */
  ghost predicate Draws(w: Workflow, n: Node, kind: Kind, t: Id, l: Link, m: Node)
  {
    l in w.links && l.source == n.nodeId && l.kind == kind && m in w.nodes && l.target == m.nodeId && m.step.stepId == t
  }

  /** In an accepted graph the edges of each kind lead to exactly the targets the step lists for that outcome. */
  lemma BranchEdgesAreTargets(w: Workflow, n: Node, t: Id)
    requires WellDrawn(w) && n in w.nodes && n.step.branching.Some?
    ensures var b := n.step.branching.value;
      && (t in b.onTrue <==> exists l, m :: Draws(w, n, BranchTrue, t, l, m))
      && (t in b.onFalse <==> exists l, m :: Draws(w, n, BranchFalse, t, l, m))
      && (t in b.onError <==> exists l, m :: Draws(w, n, BranchFallback, t, l, m))
  {
    DrawnIff(w, n, BranchTrue, t);
    DrawnIff(w, n, BranchFalse, t);
    DrawnIff(w, n, BranchFallback, t);
    assert BranchesMatch(w, n);
  }

  lemma DrawnIff(w: Workflow, n: Node, kind: Kind, t: Id)
    requires DistinctNodes(w.nodes)
    ensures t in Drawn(w, n.nodeId, kind) <==> exists l, m :: Draws(w, n, kind, t, l, m)
  {
    NodeMapFinds(w.nodes);
    var byId := NodeMap(w.nodes);
    if t in Drawn(w, n.nodeId, kind) {
      var l :| l in w.links && l.source == n.nodeId && l.kind == kind && l.target in byId
        && byId[l.target].step.stepId == t;
      var m :| m in w.nodes && m.nodeId == l.target;
      assert Draws(w, n, kind, t, l, m);
    }
  }

  /** None of the macro's uniqueness, branch-target and approval checks can fire on a compiled graph. */
  lemma CompiledIsWellFormed(w: Workflow)
    requires WellDrawn(w) && Acyclic(NodeGraph(w))
    ensures M.WellFormedRequest(M.Request(Compiled(w), map[]))
  {
    CompiledIsPermutation(w);
    var steps := Compiled(w);
    forall s | s in steps ensures M.TargetsKnown(s, M.Ids(steps)) {
      forall t | t in s.Targets() ensures t in M.Ids(steps) && t != s.stepId {
        var n :| n in w.nodes && n.step == s;
        var m := TargetIsAnotherNode(w, n, t);
        assert m.step in steps;
      }
    }
  }

  // ----- Canonicity -----

  /** The order of nodes is topological, and every other topological order comes after it. */
  lemma CompiledOrderIsLeast(w: Workflow, other: seq<Id>)
    requires WellDrawn(w) && Topological(NodeGraph(w), other)
    ensures var order := Greedy(NodeGraph(w), NodeIds(w)); Topological(NodeGraph(w), order) && AtMost(order, other)
  {
    NodeGraphWellFormed(w);
    TopologicalImpliesAcyclic(NodeGraph(w), other);
    GreedyCompleteIffAcyclic(NodeGraph(w));
    GreedyIsLeast(NodeGraph(w), other);
  }

  /** Listing nodes or edges in another order, or repeating edges, does not change the macro. */
  lemma CompilationIsCanonical(w: Workflow, w': Workflow)
    requires WellDrawn(w) && WellDrawn(w')
    requires Elements(w.nodes) == Elements(w'.nodes) && Elements(w.links) == Elements(w'.links)
    ensures NodeGraph(w) == NodeGraph(w') && Compiled(w) == Compiled(w')
  {
    SameMembers(w.nodes, w'.nodes);
    SameMembers(w.links, w'.links);
    assert NodeIds(w) == NodeIds(w') && DependencyPairs(w.links) == DependencyPairs(w'.links);
    SameNodeMap(w.nodes, w'.nodes);
  }

  lemma SameMembers<T>(a: seq<T>, b: seq<T>)
    requires Elements(a) == Elements(b)
    ensures forall x :: x in a <==> x in b
  {
    assert forall x :: x in a <==> x in Elements(a);
    assert forall x :: x in b <==> x in Elements(b);
  }

  lemma SameNodeMap(a: seq<Node>, b: seq<Node>)
    requires DistinctNodes(a) && DistinctNodes(b) && forall n :: n in a <==> n in b
    ensures NodeMap(a) == NodeMap(b)
  {
    NodeMapFinds(a);
    NodeMapFinds(b);
    forall id | id in NodeMap(a) ensures id in NodeMap(b) && NodeMap(b)[id] == NodeMap(a)[id] {
      var n :| n in a && n.nodeId == id;
      assert n in b;
    }
    assert NodeMap(a).Keys == NodeMap(b).Keys;
  }
}
