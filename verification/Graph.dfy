/**
  Kahn's algorithm with a sorted frontier, shared by the macro validator and the two
  workflow-graph passes, proved against a definition that mentions neither in-degrees
  nor a frontier: repeatedly remove the least node that has no remaining predecessor.
 */
module Graph {
  import opened Sorting
  import Text

  type Id = string
  type Adjacency = map<Id, set<Id>>

  ghost predicate WellFormed(adj: Adjacency)
  {
    forall u :: u in adj ==> adj[u] <= adj.Keys
  }

  ghost predicate Edge(adj: Adjacency, u: Id, v: Id)
  {
    u in adj && v in adj[u]
  }

  // ----- Reference notions -----

  ghost predicate RespectsEdges(adj: Adjacency, order: seq<Id>)
  {
    forall i, j :: 0 <= i < |order| && 0 <= j < |order| && Edge(adj, order[i], order[j]) ==> i < j
  }

  /** A permutation of the nodes in which every edge points forward. */
  ghost predicate Topological(adj: Adjacency, order: seq<Id>)
  {
    Distinct(order) && Elements(order) == adj.Keys && RespectsEdges(adj, order)
  }

  ghost predicate Walk(adj: Adjacency, p: seq<Id>)
  {
    forall i :: 0 <= i < |p| - 1 ==> Edge(adj, p[i], p[i + 1])
  }

  ghost predicate Cycle(adj: Adjacency, p: seq<Id>)
  {
    |p| >= 2 && Walk(adj, p) && p[0] == p[|p| - 1]
  }

  ghost predicate Acyclic(adj: Adjacency)
  {
    forall p :: !Cycle(adj, p)
  }

  /** `a` equals `b` or comes before it in the dictionary order of sequences of ids. */
  ghost predicate AtMost(a: seq<Id>, b: seq<Id>)
  {
    a == b || exists k: nat :: LessAt(a, b, k)
  }

  /** The sequences agree up to position `k`, where `a` has the smaller id. */
  ghost predicate LessAt(a: seq<Id>, b: seq<Id>, k: nat)
  {
    k < |a| && k < |b| && a[..k] == b[..k] && Text.Less(a[k], b[k])
  }

  // ----- The greedy order -----

  lemma IdOrder()
    ensures StrictTotalOrder(Text.Less)
  {
    forall x: Id ensures !Text.Less(x, x) { Text.LessIrreflexive(x); }
    forall x: Id, y: Id, z: Id | Text.Less(x, y) && Text.Less(y, z) ensures Text.Less(x, z) {
      Text.LessTransitive(x, y, z);
    }
    forall x: Id, y: Id ensures x == y || Text.Less(x, y) || Text.Less(y, x) { Text.LessTotal(x, y); }
  }

  ghost function Predecessors(adj: Adjacency, rem: set<Id>, v: Id): set<Id>
  {
    set u | u in rem && Edge(adj, u, v)
  }

  ghost function Ready(adj: Adjacency, rem: set<Id>): set<Id>
  {
    set v | v in rem && Predecessors(adj, rem, v) == {}
  }

  ghost function Next(adj: Adjacency, rem: set<Id>): (m: Id)
    requires Ready(adj, rem) != {}
    ensures m in Ready(adj, rem)
    ensures forall v :: v in Ready(adj, rem) && v != m ==> Text.Less(m, v)
  {
    IdOrder();
    Least(Ready(adj, rem), Text.Less)
  }

  ghost function Greedy(adj: Adjacency, rem: set<Id>): seq<Id>
    decreases rem
  {
    if Ready(adj, rem) == {} then []
    else [Next(adj, rem)] + Greedy(adj, rem - {Next(adj, rem)})
  }

  /** What the greedy order leaves out is a set in which every node has a predecessor. */
  lemma {:induction false} GreedyShape(adj: Adjacency, rem: set<Id>)
    ensures Distinct(Greedy(adj, rem)) && Elements(Greedy(adj, rem)) <= rem
    ensures Ready(adj, rem - Elements(Greedy(adj, rem))) == {}
    decreases rem
  {
    if Ready(adj, rem) != {} {
      var m := Next(adj, rem);
      var rest := Greedy(adj, rem - {m});
      GreedyShape(adj, rem - {m});
      assert forall x :: x in rest ==> x in Elements(rest);
      assert Elements([m] + rest) == {m} + Elements(rest);
      assert rem - Elements([m] + rest) == (rem - {m}) - Elements(rest);
    } else {
      assert rem - Elements<Id>([]) == rem;
    }
  }

  lemma {:induction false} GreedyRespectsEdges(adj: Adjacency, rem: set<Id>)
    ensures RespectsEdges(adj, Greedy(adj, rem))
    decreases rem
  {
    if Ready(adj, rem) != {} {
      var m := Next(adj, rem);
      var rest := Greedy(adj, rem - {m});
      var g := [m] + rest;
      GreedyRespectsEdges(adj, rem - {m});
      GreedyShape(adj, rem - {m});
      forall x | x in g ensures !Edge(adj, x, m) {
        assert x != m ==> x in Elements(rest);
        assert x !in Predecessors(adj, rem, m);
      }
      forall i, j | 0 <= i < |g| && 0 <= j < |g| && Edge(adj, g[i], g[j]) ensures i < j {
        assert g[i] in g && j > 0;
        if i > 0 {
          assert g[i] == rest[i - 1] && g[j] == rest[j - 1];
        }
      }
    }
  }

  // ----- Completeness: the order covers every node exactly when there is no cycle -----

  lemma {:induction false} PositionsIncrease(adj: Adjacency, order: seq<Id>, p: seq<Id>, n: nat)
      returns (i: nat, j: nat)
    requires Topological(adj, order) && WellFormed(adj) && Walk(adj, p) && 1 <= n < |p|
    ensures i < j < |order| && order[i] == p[0] && order[j] == p[n]
  {
    assert Edge(adj, p[n - 1], p[n]);
    assert p[n] in Elements(order) && p[n - 1] in Elements(order);
    j :| 0 <= j < |order| && order[j] == p[n];
    if n == 1 {
      i :| 0 <= i < |order| && order[i] == p[0];
    } else {
      var k;
      i, k := PositionsIncrease(adj, order, p, n - 1);
      assert Edge(adj, order[k], order[j]);
    }
  }

  lemma TopologicalImpliesAcyclic(adj: Adjacency, order: seq<Id>)
    requires WellFormed(adj) && Topological(adj, order)
    ensures Acyclic(adj)
  {
    forall p ensures !Cycle(adj, p) {
      if Cycle(adj, p) {
        var i, j := PositionsIncrease(adj, order, p, |p| - 1);
        assert false;
      }
    }
  }

  /** A walk of any length inside a set whose members all have predecessors in it. */
  lemma {:induction false} BackwardWalk(adj: Adjacency, rem: set<Id>, n: nat) returns (p: seq<Id>)
    requires rem != {} && Ready(adj, rem) == {}
    ensures |p| == n + 1 && Walk(adj, p) && forall x :: x in p ==> x in rem
  {
    if n == 0 {
      var x :| x in rem;
      p := [x];
    } else {
      var q := BackwardWalk(adj, rem, n - 1);
      assert q[0] in q && q[0] !in Ready(adj, rem);
      var u :| u in Predecessors(adj, rem, q[0]);
      p := [u] + q;
      forall i | 0 <= i < |p| - 1 ensures Edge(adj, p[i], p[i + 1]) {
        assert i > 0 ==> p[i] == q[i - 1] && p[i + 1] == q[i];
      }
    }
  }

  /** Pigeonhole: more entries than values means some value occurs twice. */
  lemma {:induction false} Pigeonhole(p: seq<Id>, rem: set<Id>) returns (i: nat, j: nat)
    requires |p| > |rem| && forall x :: x in p ==> x in rem
    ensures i < j < |p| && p[i] == p[j]
  {
    if p[0] in p[1..] {
      i := 0;
      j :| 1 <= j < |p| && p[j] == p[0];
    } else {
      i, j := Pigeonhole(p[1..], rem - {p[0]});
      i, j := i + 1, j + 1;
    }
  }

  lemma StuckHasCycle(adj: Adjacency, rem: set<Id>) returns (c: seq<Id>)
    requires rem != {} && Ready(adj, rem) == {}
    ensures Cycle(adj, c) && forall x :: x in c ==> x in rem
  {
    var p := BackwardWalk(adj, rem, |rem|);
    var i, j := Pigeonhole(p, rem);
    c := p[i..j + 1];
    forall k | 0 <= k < |c| - 1 ensures Edge(adj, c[k], c[k + 1]) {
      assert c[k] == p[i + k] && c[k + 1] == p[i + k + 1];
    }
  }

  lemma ProperSubsetIsSmaller(a: set<Id>, b: set<Id>)
    requires a <= b && |a| == |b|
    ensures a == b
  {
    assert |b - a| == |b| - |a|;
  }

  /**
    The test all three passes make: the produced order is as long as the node list
    exactly when the graph has no directed cycle, and then it is a topological order.
   */
  lemma GreedyCompleteIffAcyclic(adj: Adjacency)
    requires WellFormed(adj)
    ensures |Greedy(adj, adj.Keys)| == |adj.Keys| <==> Acyclic(adj)
    ensures Acyclic(adj) ==> Topological(adj, Greedy(adj, adj.Keys))
  {
    var g := Greedy(adj, adj.Keys);
    GreedyShape(adj, adj.Keys);
    GreedyRespectsEdges(adj, adj.Keys);
    DistinctCount(g);
    if |g| == |adj.Keys| {
      ProperSubsetIsSmaller(Elements(g), adj.Keys);
      TopologicalImpliesAcyclic(adj, g);
    } else {
      assert Elements(g) != adj.Keys;
      assert adj.Keys - Elements(g) != {} by {
        var x :| x in adj.Keys && x !in Elements(g);
        assert x in adj.Keys - Elements(g);
      }
      var c := StuckHasCycle(adj, adj.Keys - Elements(g));
    }
  }

  // ----- Canonicity: the greedy order is the least topological order -----

  lemma FirstIsReady(adj: Adjacency, order: seq<Id>)
    requires order != [] && RespectsEdges(adj, order)
    ensures order[0] in Ready(adj, Elements(order))
  {
    forall u | u in order ensures !Edge(adj, u, order[0]) {
      var i :| 0 <= i < |order| && order[i] == u;
    }
    assert Predecessors(adj, Elements(order), order[0]) == {};
  }

  lemma DropFirst(adj: Adjacency, order: seq<Id>)
    requires order != [] && Distinct(order) && RespectsEdges(adj, order)
    ensures Distinct(order[1..]) && RespectsEdges(adj, order[1..])
    ensures Elements(order[1..]) == Elements(order) - {order[0]}
  {
    forall x | x in order && x != order[0] ensures x in order[1..] {
      var i :| 0 <= i < |order| && order[i] == x;
      assert order[1..][i - 1] == x;
    }
    var t := order[1..];
    forall i, j | 0 <= i < |t| && 0 <= j < |t| && Edge(adj, t[i], t[j]) ensures i < j {
      assert Edge(adj, order[i + 1], order[j + 1]);
    }
  }

  lemma AtMostCons(m: Id, a: seq<Id>, b: seq<Id>)
    requires AtMost(a, b)
    ensures AtMost([m] + a, [m] + b)
  {
    if a != b {
      var k: nat :| LessAt(a, b, k);
      assert ([m] + a)[..k + 1] == [m] + a[..k] && ([m] + b)[..k + 1] == [m] + b[..k];
      assert LessAt([m] + a, [m] + b, k + 1);
    }
  }

  /** Of all topological orders the greedy one comes first in dictionary order. */
  lemma {:induction false} GreedyIsLeast(adj: Adjacency, order: seq<Id>)
    requires Distinct(order) && RespectsEdges(adj, order)
    ensures AtMost(Greedy(adj, Elements(order)), order)
  {
    var g := Greedy(adj, Elements(order));
    if order == [] {
      assert Ready(adj, Elements(order)) == {};
    } else {
      FirstIsReady(adj, order);
      var m := Next(adj, Elements(order));
      if order[0] == m {
        DropFirst(adj, order);
        GreedyIsLeast(adj, order[1..]);
        AtMostCons(m, Greedy(adj, Elements(order) - {m}), order[1..]);
        assert order == [m] + order[1..];
      } else {
        assert g[0] == m && g[..0] == order[..0] && LessAt(g, order, 0);
      }
    }
  }

  // ----- The imperative algorithm -----

  ghost function AdjacencyOf(nodes: set<Id>, edges: set<(Id, Id)>): Adjacency
  {
    map u | u in nodes :: set e | e in edges && e.0 == u :: e.1
  }

  ghost predicate CountsPredecessors(adj: Adjacency, degree: map<Id, nat>)
  {
    degree.Keys == adj.Keys && forall v :: v in adj ==> degree[v] == |Predecessors(adj, adj.Keys, v)|
  }

  /** `add_edge`: a repeated edge is counted once. */
  method AddEdge(adj: Adjacency, degree: map<Id, nat>, source: Id, target: Id)
      returns (adj': Adjacency, degree': map<Id, nat>)
    requires source in adj && target in adj && CountsPredecessors(adj, degree)
    ensures adj' == adj[source := adj[source] + {target}] && CountsPredecessors(adj', degree')
  {
    adj', degree' := adj, degree;
    if target !in adj[source] {
      adj' := adj[source := adj[source] + {target}];
      degree' := degree[target := degree[target] + 1];
      assert adj'.Keys == adj.Keys;
      forall v | v in adj ensures degree'[v] == |Predecessors(adj', adj.Keys, v)| {
        PredecessorsExtend(adj, source, target, v);
      }
    } else {
      assert adj[source] + {target} == adj[source];
    }
  }

  lemma PredecessorsExtend(adj: Adjacency, source: Id, target: Id, v: Id)
    requires source in adj && target in adj && target !in adj[source]
    ensures |Predecessors(adj[source := adj[source] + {target}], adj.Keys, v)|
         == |Predecessors(adj, adj.Keys, v)| + if v == target then 1 else 0
  {
    var after := Predecessors(adj[source := adj[source] + {target}], adj.Keys, v);
    var before := Predecessors(adj, adj.Keys, v);
    assert after == if v == target then before + {source} else before;
  }

  method BuildGraph(nodes: set<Id>, edges: seq<(Id, Id)>) returns (adj: Adjacency, degree: map<Id, nat>)
    requires forall e :: e in edges ==> e.0 in nodes && e.1 in nodes
    ensures adj == AdjacencyOf(nodes, Elements(edges)) && WellFormed(adj)
    ensures CountsPredecessors(adj, degree)
  {
    adj := map u | u in nodes :: {};
    degree := map v | v in nodes :: 0;
    assert forall v :: v in nodes ==> Predecessors(adj, nodes, v) == {};
    AdjacencyEmpty(nodes);
    assert Elements(edges[..0]) == {};
    for k := 0 to |edges|
      invariant adj == AdjacencyOf(nodes, Elements(edges[..k])) && CountsPredecessors(adj, degree)
    {
      AdjacencyExtend(nodes, Elements(edges[..k]), edges[k]);
      assert Elements(edges[..k + 1]) == Elements(edges[..k]) + {edges[k]};
      adj, degree := AddEdge(adj, degree, edges[k].0, edges[k].1);
    }
    assert edges[..|edges|] == edges;
    AdjacencyEdges(nodes, Elements(edges));
  }

  lemma AdjacencyEmpty(nodes: set<Id>)
    ensures AdjacencyOf(nodes, {}) == map u | u in nodes :: {}
  {
    var adj := AdjacencyOf(nodes, {});
    assert adj.Keys == nodes && forall u :: u in nodes ==> adj[u] == {};
  }

  lemma AdjacencyEdges(nodes: set<Id>, edges: set<(Id, Id)>)
    requires forall e :: e in edges ==> e.0 in nodes && e.1 in nodes
    ensures WellFormed(AdjacencyOf(nodes, edges))
    ensures forall u, v :: Edge(AdjacencyOf(nodes, edges), u, v) <==> (u, v) in edges
  {
    var adj := AdjacencyOf(nodes, edges);
    forall u, v ensures Edge(adj, u, v) <==> (u, v) in edges {
      if (u, v) in edges {
        assert (u, v).1 in adj[(u, v).0];
      }
    }
    forall u | u in adj ensures adj[u] <= nodes {
      forall v | v in adj[u] ensures v in nodes {
        assert Edge(adj, u, v);
      }
    }
  }

  lemma AdjacencyExtend(nodes: set<Id>, edges: set<(Id, Id)>, e: (Id, Id))
    requires e.0 in nodes
    ensures var adj := AdjacencyOf(nodes, edges);
            AdjacencyOf(nodes, edges + {e}) == adj[e.0 := adj[e.0] + {e.1}]
  {
    var adj := AdjacencyOf(nodes, edges);
    var adj' := AdjacencyOf(nodes, edges + {e});
    forall u | u in nodes ensures adj'[u] == adj[e.0 := adj[e.0] + {e.1}][u] {
      forall x | x in adj'[u] ensures x in adj[e.0 := adj[e.0] + {e.1}][u] {
        assert (u, x) in edges + {e};
      }
      assert u == e.0 ==> (u, e.1) in edges + {e};
      forall x | x in adj[u] ensures x in adj'[u] {
        assert (u, x) in edges + {e};
      }
    }
  }

  /** No edge leads from the nodes still to be emitted back to an emitted one. */
  ghost predicate Closed(adj: Adjacency, rem: set<Id>)
  {
    forall v :: v in adj && v !in rem ==> Predecessors(adj, rem, v) == {}
  }

  ghost predicate Ascending(s: seq<Id>)
  {
    Sorted(s, Text.Less)
  }

  method SortIds(ids: set<Id>) returns (r: seq<Id>)
    ensures Ascending(r) && Distinct(r) && Elements(r) == ids
  {
    IdOrder();
    r := SortSet(ids, Text.Less);
  }

  /** One turn of the loop: the first of the frontier goes, its targets are relaxed, the frontier is sorted. */
  method Advance(adj: Adjacency, ghost rem: set<Id>, inDegree: map<Id, nat>, queue: seq<Id>)
      returns (degree: map<Id, nat>, frontier: seq<Id>)
    requires WellFormed(adj) && inDegree.Keys == adj.Keys && rem <= adj.Keys && Closed(adj, rem)
    requires forall v :: v in adj ==> inDegree[v] == |Predecessors(adj, rem, v)|
    requires queue != [] && Ascending(queue) && Distinct(queue) && Elements(queue) == Ready(adj, rem)
    ensures degree.Keys == adj.Keys && Closed(adj, rem - {queue[0]})
    ensures forall v :: v in adj ==> degree[v] == |Predecessors(adj, rem - {queue[0]}, v)|
    ensures Ascending(frontier) && Distinct(frontier) && Elements(frontier) == Ready(adj, rem - {queue[0]})
  {
    assert queue[0] in Elements(queue);
    IdOrder();
    TailElements(queue, Text.Less);
    degree, frontier := Relax(adj, rem, inDegree, queue[0], queue[1..]);
    frontier := SortDistinct(frontier, Text.Less);
  }

  /** The frontier loop. */
  method Kahn(adj: Adjacency, inDegree: map<Id, nat>) returns (ordered: seq<Id>)
    requires WellFormed(adj) && CountsPredecessors(adj, inDegree)
    ensures ordered == Greedy(adj, adj.Keys)
  {
    var degree := inDegree;
    ordered := [];
    var frontier := SortIds(set v | v in degree && degree[v] == 0);
    ghost var rem := adj.Keys;
    assert Ready(adj, rem) == Elements(frontier);
    while frontier != []
      invariant rem <= adj.Keys && degree.Keys == adj.Keys && Closed(adj, rem)
      invariant forall v :: v in adj ==> degree[v] == |Predecessors(adj, rem, v)|
      invariant Ascending(frontier) && Distinct(frontier) && Elements(frontier) == Ready(adj, rem)
      invariant ordered + Greedy(adj, rem) == Greedy(adj, adj.Keys)
      decreases rem
    {
      var current := frontier[0];
      HeadIsNext(adj, rem, frontier);
      assert ordered + Greedy(adj, rem) == ordered + [current] + Greedy(adj, rem - {current});
      ordered := ordered + [current];
      degree, frontier := Advance(adj, rem, degree, frontier);
      rem := rem - {current};
    }
    NoElements(frontier);
    assert ordered + [] == ordered;
  }

  lemma HeadIsNext(adj: Adjacency, rem: set<Id>, frontier: seq<Id>)
    requires Ascending(frontier) && Elements(frontier) == Ready(adj, rem) && frontier != []
    ensures Ready(adj, rem) != {} && frontier[0] == Next(adj, rem)
    ensures Elements(frontier[1..]) == Ready(adj, rem) - {frontier[0]}
  {
    IdOrder();
    FirstIsLeast(frontier, Text.Less);
    TailElements(frontier, Text.Less);
  }

  /** The inner loop over the successors of the node just emitted. */
  method Decrement(targets: seq<Id>, inDegree: map<Id, nat>, queue: seq<Id>)
      returns (degree: map<Id, nat>, frontier: seq<Id>)
    requires Distinct(targets) && Distinct(queue)
    requires forall t :: t in targets ==> t in inDegree && inDegree[t] > 0 && t !in queue
    ensures degree.Keys == inDegree.Keys
    ensures forall v :: v in inDegree ==> degree[v] == if v in targets then inDegree[v] - 1 else inDegree[v]
    ensures Distinct(frontier)
    ensures forall v :: v in frontier <==> v in queue || (v in targets && inDegree[v] == 1)
  {
    degree, frontier := inDegree, queue;
    for k := 0 to |targets|
      invariant degree.Keys == inDegree.Keys
      invariant forall v :: v in inDegree ==> degree[v] == if v in targets[..k] then inDegree[v] - 1 else inDegree[v]
      invariant Distinct(frontier)
      invariant forall v :: v in frontier <==> v in queue || (v in targets[..k] && inDegree[v] == 1)
    {
      var target := targets[k];
      assert target !in targets[..k] && targets[..k + 1] == targets[..k] + [target];
      degree := degree[target := degree[target] - 1];
      if degree[target] == 0 {
        frontier := frontier + [target];
      }
    }
    assert targets[..|targets|] == targets;
  }

  method Relax(adj: Adjacency, ghost rem: set<Id>, inDegree: map<Id, nat>, current: Id, queue: seq<Id>)
      returns (degree: map<Id, nat>, frontier: seq<Id>)
    requires WellFormed(adj) && inDegree.Keys == adj.Keys && rem <= adj.Keys && Closed(adj, rem)
    requires forall v :: v in adj ==> inDegree[v] == |Predecessors(adj, rem, v)|
    requires current in Ready(adj, rem) && Distinct(queue) && Elements(queue) == Ready(adj, rem) - {current}
    ensures degree.Keys == adj.Keys && Closed(adj, rem - {current})
    ensures forall v :: v in adj ==> degree[v] == |Predecessors(adj, rem - {current}, v)|
    ensures Distinct(frontier) && Elements(frontier) == Ready(adj, rem - {current})
  {
    var targets := SortIds(adj[current]);
    assert forall v :: v in targets <==> v in Elements(targets);
    assert forall v :: v in queue <==> v in Elements(queue);
    forall v | v in adj ensures Effect(adj, rem, current, v) {
      RemoveReady(adj, rem, current, v);
    }
    degree, frontier := Decrement(targets, inDegree, queue);
    assert forall v :: v in adj ==> Effect(adj, rem, current, v);
    forall v ensures v in Elements(frontier) <==> v in Ready(adj, rem - {current}) {
      assert v in adj ==> Effect(adj, rem, current, v);
    }
  }

  /** What removing a ready node does to one other node's predecessors and readiness. */
  ghost predicate Effect(adj: Adjacency, rem: set<Id>, current: Id, v: Id)
    requires current in adj
  {
    var before, after := Predecessors(adj, rem, v), Predecessors(adj, rem - {current}, v);
    && |after| == |before| - (if v in adj[current] then 1 else 0)
    && (v in adj[current] ==> v !in Ready(adj, rem) && |before| > 0)
    && (v in Ready(adj, rem - {current})
        <==> (v in Ready(adj, rem) && v != current) || (v in adj[current] && |before| == 1))
    && (v !in rem - {current} ==> after == {})
  }

  lemma RemoveReady(adj: Adjacency, rem: set<Id>, current: Id, v: Id)
    requires WellFormed(adj) && rem <= adj.Keys && Closed(adj, rem) && current in Ready(adj, rem) && v in adj
    ensures Effect(adj, rem, current, v)
  {
    var before, after := Predecessors(adj, rem, v), Predecessors(adj, rem - {current}, v);
    assert after == before - {current};
    assert v in adj[current] <==> current in before;
    assert v !in rem ==> before == {};
    assert |after| == 0 <==> after == {};
  }
}
