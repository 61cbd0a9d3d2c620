/** Macro requests and the validator that admits them (eap/protocol/models.py). */
module Macro {
  import opened Wrappers
  import opened Sorting
  import opened Graph

  /** JSON argument values; `Scalar` stands for numbers, booleans and null, which hold no references. */
  datatype Value =
    | Str(text: string)
    | Dict(keys: seq<string>, items: seq<Value>)
    | List(items: seq<Value>)
    | Scalar

  datatype Branching = Branching(
    condition: string, onTrue: seq<Id>, onFalse: seq<Id>, onError: seq<Id>, allowEarlyExit: bool)
  {
    function Targets(): seq<Id> { onTrue + onFalse + onError }
  }

  datatype Step = Step(
    stepId: Id, toolName: string, arguments: seq<(string, Value)>,
    branching: Option<Branching>, approvalRequired: bool)
  {
    function Targets(): seq<Id> { if branching.Some? then branching.value.Targets() else [] }
  }

  datatype Decision = Approve | Reject

  datatype Request = Request(steps: seq<Step>, approvals: map<Id, Decision>)

  function Ids(steps: seq<Step>): set<Id>
  {
    set s | s in steps :: s.stepId
  }

  // ----- References in argument strings -----

  const StepPrefix := "$step:"
  const MaxReferenceDepth := 32

  /** The text before the first dot. */
  function Head(s: string): (h: string)
    ensures h <= s && '.' !in h
    ensures h == s || s[|h|] == '.'
  {
    if s == "" || s[0] == '.' then "" else [s[0]] + Head(s[1..])
  }

  /** What follows `$step:` or `$`. */
  function Payload(text: string): string
    requires text != "" && text[0] == '$'
  {
    if StepPrefix <= text then text[|StepPrefix|..] else text[1..]
  }

  predicate IsReference(text: string)
  {
    text != "" && text[0] == '$'
  }

  /** The references the validator sees in one string. */
  function TextReferences(text: string): set<Id>
  {
    if IsReference(text) && Payload(text) != "" then {Head(Payload(text))} else {}
  }

  /** A step id, with or without a dotted path after it. */
  ghost predicate NamesStep(s: string, d: Id)
  {
    '.' !in d && (s == d || exists path :: s == d + ("." + path))
  }

  lemma {:induction false} HeadOf(s: string, d: Id)
    requires '.' !in d && d <= s && (s == d || s[|d|] == '.')
    ensures Head(s) == d
  {
    if d != "" {
      assert s[0] == d[0] && d[0] in d;
      HeadOf(s[1..], d[1..]);
      assert d == [d[0]] + d[1..];
    }
  }

  /** The head is the one step id the text names. */
  lemma HeadIff(s: string, d: Id)
    ensures Head(s) == d <==> NamesStep(s, d)
  {
    if NamesStep(s, d) {
      HeadOf(s, d);
    }
    var h := Head(s);
    assert h != s ==> s == h + ("." + s[|h| + 1..]);
  }

  /** The text is one of the two marks for a reference and something after it. */
  ghost predicate IsMarked(text: string, rest: string)
  {
    rest != "" && (text == "$step:" + rest || (text == "$" + rest && !("$step:" <= text)))
  }

  /** A string refers to a step exactly when it is `$step:` or `$`, the id, and maybe a path. */
  lemma TextReferencesIff(text: string, d: Id)
    ensures d in TextReferences(text) <==> exists rest :: IsMarked(text, rest) && NamesStep(rest, d)
  {
    if d in TextReferences(text) {
      var rest := Payload(text);
      HeadIff(rest, d);
      assert text == (if "$step:" <= text then "$step:" else "$") + rest;
      assert IsMarked(text, rest);
    }
    if rest :| IsMarked(text, rest) && NamesStep(rest, d) {
      assert Payload(text) == rest;
      HeadIff(rest, d);
    }
  }

  ghost function References(v: Value): set<Id>
  {
    match v
    case Str(text) => TextReferences(text)
    case Dict(_, items) => AllReferences(items)
    case List(items) => AllReferences(items)
    case Scalar => {}
  }

  ghost function AllReferences(items: seq<Value>): set<Id>
  {
    if items == [] then {}
    else AllReferences(items[..|items| - 1]) + References(items[|items| - 1])
  }

  /** No value sits more than `room` container levels below `v`. */
  ghost predicate Shallow(v: Value, room: int)
  {
    && room >= 0
    && ((v.Dict? || v.List?) ==> forall i :: 0 <= i < |v.items| ==> Shallow(v.items[i], room - 1))
  }

  ghost predicate AllShallow(items: seq<Value>, n: nat, room: int)
    requires n <= |items|
  {
    forall i :: 0 <= i < n ==> Shallow(items[i], room)
  }

  /** `_extract_argument_step_references`: `None` is the depth error. */
  method Extract(v: Value, depth: nat) returns (refs: Option<set<Id>>)
    requires depth <= MaxReferenceDepth + 1
    ensures refs.Some? <==> Shallow(v, MaxReferenceDepth - depth)
    ensures refs.Some? ==> refs.value == References(v)
    decreases v
  {
    if depth > MaxReferenceDepth {
      return None;
    }
    match v
    case Str(text) =>
      return Some(TextReferences(text));
    case Scalar =>
      return Some({});
    case Dict(_, items) =>
      refs := ExtractAll(items, depth);
    case List(items) =>
      refs := ExtractAll(items, depth);
  }

  lemma OneMoreReferenced(items: seq<Value>, k: nat)
    requires k < |items|
    ensures AllReferences(items[..k + 1]) == AllReferences(items[..k]) + References(items[k])
  {
    assert items[..k + 1][..k] == items[..k];
  }

  method ExtractAll(items: seq<Value>, depth: nat) returns (refs: Option<set<Id>>)
    requires depth <= MaxReferenceDepth
    ensures refs.Some? <==> AllShallow(items, |items|, MaxReferenceDepth - depth - 1)
    ensures refs.Some? ==> refs.value == AllReferences(items)
    decreases items
  {
    var found: set<Id> := {};
    ghost var room := MaxReferenceDepth - depth - 1;
    for k := 0 to |items|
      invariant AllShallow(items, k, room) && found == AllReferences(items[..k])
    {
      var nested := Extract(items[k], depth + 1);
      if nested.None? {
        return None;
      }
      found := found + nested.value;
      OneMoreReferenced(items, k);
    }
    assert items[..|items|] == items;
    refs := Some(found);
  }

  // ----- References in branch conditions -----

  predicate NameChar(c: char)
  {
    'A' <= c <= 'Z' || 'a' <= c <= 'z' || '0' <= c <= '9' || c == '_' || c == '-'
  }

  predicate PathChar(c: char)
  {
    'A' <= c <= 'Z' || 'a' <= c <= 'z' || '0' <= c <= '9' || c == '_' || c == '.'
  }

  /** The longest prefix made of characters of the class. */
  function Run(s: string, inClass: char -> bool): (r: string)
    ensures r <= s && forall c :: c in r ==> inClass(c)
    ensures |r| == |s| || !inClass(s[|r|])
  {
    if s == "" || !inClass(s[0]) then "" else [s[0]] + Run(s[1..], inClass)
  }

  /** The step named by a reference starting at position `i`; empty when there is none. */
  function NameAt(s: string, i: nat): string
    requires i <= |s|
  {
    if StepPrefix <= s[i..] then Run(s[i + |StepPrefix|..], NameChar) else ""
  }

  /** Every name that follows an occurrence of `$step:` anywhere in the condition. */
  ghost function ConditionReferences(s: string): set<Id>
  {
    set i | 0 <= i <= |s| && NameAt(s, i) != "" :: NameAt(s, i)
  }

  lemma RunChars(s: string, j: nat, inClass: char -> bool)
    requires j <= |s|
    ensures forall k :: j <= k < j + |Run(s[j..], inClass)| ==> k < |s| && inClass(s[k])
  {
    var r := Run(s[j..], inClass);
    forall k | j <= k < j + |r| ensures k < |s| && inClass(s[k]) {
      assert r[k - j] == s[j..][k - j];
      assert r[k - j] in r;
    }
  }

  /** Where the match starting at `i` ends: after the name and, if there is one, its dotted path. */
  function MatchEnd(s: string, i: nat): (end: nat)
    requires i <= |s| && NameAt(s, i) != ""
    ensures i < end <= |s|
  {
    var nameEnd := i + |StepPrefix| + |NameAt(s, i)|;
    if nameEnd < |s| && s[nameEnd] == '.' && Run(s[nameEnd + 1..], PathChar) != "" then
      nameEnd + 1 + |Run(s[nameEnd + 1..], PathChar)|
    else nameEnd
  }

  lemma NoDollarNoReference(s: string, k: nat)
    requires k < |s| && s[k] != '$'
    ensures NameAt(s, k) == ""
  {
    assert s[k..][0] == s[k];
  }

  lemma NoDollarInPrefix(s: string, i: nat, k: nat)
    requires i <= |s| && StepPrefix <= s[i..] && i < k < i + |StepPrefix|
    ensures s[k] != '$'
  {
    assert s[k] == s[i..][k - i] == StepPrefix[k - i];
    assert StepPrefix == ['$', 's', 't', 'e', 'p', ':'];
  }

  lemma NoReferenceInsideMatch(s: string, i: nat, k: nat)
    requires i <= |s| && NameAt(s, i) != "" && i < k < MatchEnd(s, i)
    ensures NameAt(s, k) == ""
  {
    var nameStart := i + |StepPrefix|;
    var nameEnd := nameStart + |NameAt(s, i)|;
    if k < nameStart {
      NoDollarInPrefix(s, i, k);
    } else if k < nameEnd {
      RunChars(s, nameStart, NameChar);
    } else if k > nameEnd {
      RunChars(s, nameEnd + 1, PathChar);
    }
    NoDollarNoReference(s, k);
  }

  /**
    `re.findall` with the reference pattern: matches are taken left to right and do not
    overlap. Skipping over a match loses nothing, because no character of one can start another.
   */
  method FindReferences(s: string) returns (refs: set<Id>)
    ensures refs == ConditionReferences(s)
  {
    refs := {};
    var i := 0;
    while i < |s|
      invariant i <= |s|
      invariant refs == set k | 0 <= k < i && NameAt(s, k) != "" :: NameAt(s, k)
    {
      ghost var start := i;
      if NameAt(s, i) != "" {
        refs := refs + {NameAt(s, i)};
        i := MatchEnd(s, i);
      } else {
        i := i + 1;
      }
      forall k | start < k < i ensures NameAt(s, k) == "" {
        NoReferenceInsideMatch(s, start, k);
      }
    }
    assert NameAt(s, |s|) == "";
  }

  // ----- What an admissible request is -----

  datatype Error = DuplicateStepId | UnknownTarget | SelfTarget | UnknownApproval | ApprovalNotRequired | TooDeep
    | Cyclic

  datatype Verdict = Accepted | Rejected(error: Error)

  ghost predicate UniqueIds(steps: seq<Step>)
  {
    forall i, j :: 0 <= i < j < |steps| ==> steps[i].stepId != steps[j].stepId
  }

  ghost predicate TargetsKnown(step: Step, ids: set<Id>)
  {
    forall t :: t in step.Targets() ==> t in ids && t != step.stepId
  }

  ghost predicate ApprovalMatches(steps: seq<Step>, id: Id)
  {
    exists s :: s in steps && s.stepId == id && s.approvalRequired
  }

  /** The checks made before the graph is built. */
  ghost predicate WellFormedRequest(r: Request)
  {
    && UniqueIds(r.steps)
    && (forall s :: s in r.steps ==> TargetsKnown(s, Ids(r.steps)))
    && (forall id :: id in r.approvals ==> ApprovalMatches(r.steps, id))
  }

  function Values(step: Step): seq<Value>
  {
    seq(|step.arguments|, i requires 0 <= i < |step.arguments| => step.arguments[i].1)
  }

  ghost predicate ShallowStep(step: Step)
  {
    forall i :: 0 <= i < |step.arguments| ==> Shallow(step.arguments[i].1, MaxReferenceDepth)
  }

  /** Steps whose results the condition of `step` reads, itself excluded. */
  ghost function ConditionSources(step: Step): set<Id>
  {
    if step.branching.Some? then ConditionReferences(step.branching.value.condition) - {step.stepId} else {}
  }

  /** From the steps referred to, to the step; from the step to its branch targets. */
  function EdgesFrom(step: Step, ids: set<Id>, refs: set<Id>, sources: set<Id>): set<(Id, Id)>
  {
    (set d | d in refs * ids :: (d, step.stepId))
    + (set d | d in sources * ids :: (d, step.stepId))
    + (set t | t in step.Targets() :: (step.stepId, t))
  }

  /** The edges one step contributes, as (source, target) pairs. */
  ghost function StepEdges(step: Step, ids: set<Id>): set<(Id, Id)>
  {
    EdgesFrom(step, ids, AllReferences(Values(step)), ConditionSources(step))
  }

  ghost function DependencyEdges(steps: seq<Step>, ids: set<Id>): set<(Id, Id)>
  {
    set s, e | s in steps && e in StepEdges(s, ids) :: e
  }

  /** The de-duplicated graph of argument references, condition references and branch targets. */
  ghost function DependencyGraph(steps: seq<Step>): Adjacency
  {
    AdjacencyOf(Ids(steps), DependencyEdges(steps, Ids(steps)))
  }

  ghost predicate Admissible(r: Request)
  {
    WellFormedRequest(r) && (forall s :: s in r.steps ==> ShallowStep(s)) && Acyclic(DependencyGraph(r.steps))
  }

  // ----- The validator -----

  lemma IdCount(steps: seq<Step>)
    ensures |Ids(steps)| == |steps| <==> UniqueIds(steps)
  {
    var ids := seq(|steps|, i requires 0 <= i < |steps| => steps[i].stepId);
    DistinctCount(ids);
    assert Ids(steps) == Elements(ids) by {
      forall x | x in Ids(steps) ensures x in ids {
        var i :| 0 <= i < |steps| && steps[i].stepId == x;
        assert ids[i] == x;
      }
    }
    if UniqueIds(steps) {
      assert forall i, j :: 0 <= i < j < |ids| ==> steps[i].stepId != steps[j].stepId;
    } else {
      var i, j :| 0 <= i < j < |steps| && steps[i].stepId == steps[j].stepId;
      assert ids[i] == ids[j];
    }
  }

  method CheckTargets(steps: seq<Step>) returns (v: Verdict)
    ensures v.Accepted? <==> forall s :: s in steps ==> TargetsKnown(s, Ids(steps))
    ensures v.Rejected? ==> v.error in {UnknownTarget, SelfTarget}
  {
    var ids := Ids(steps);
    for k := 0 to |steps|
      invariant forall s :: s in steps[..k] ==> TargetsKnown(s, ids)
    {
      var targets := steps[k].Targets();
      for j := 0 to |targets|
        invariant forall t :: t in targets[..j] ==> t in ids && t != steps[k].stepId
      {
        assert targets[j] in targets && steps[k] in steps;
        if targets[j] !in ids {
          return Rejected(UnknownTarget);
        }
        if targets[j] == steps[k].stepId {
          return Rejected(SelfTarget);
        }
      }
      assert targets[..|targets|] == targets;
    }
    assert steps[..|steps|] == steps;
    v := Accepted;
  }

  method CheckApprovals(r: Request) returns (v: Verdict)
    requires UniqueIds(r.steps)
    ensures v.Accepted? <==> forall id :: id in r.approvals ==> ApprovalMatches(r.steps, id)
    ensures v.Rejected? ==> v.error in {UnknownApproval, ApprovalNotRequired}
  {
    var rest := r.approvals.Keys;
    while rest != {}
      invariant rest <= r.approvals.Keys
      invariant forall id :: id in r.approvals.Keys - rest ==> ApprovalMatches(r.steps, id)
    {
      var id :| id in rest;
      if id !in Ids(r.steps) {
        return Rejected(UnknownApproval);
      }
      var i :| 0 <= i < |r.steps| && r.steps[i].stepId == id;
      if !r.steps[i].approvalRequired {
        assert forall s :: s in r.steps && s.stepId == id ==> s == r.steps[i];
        return Rejected(ApprovalNotRequired);
      }
      assert r.steps[i] in r.steps;
      rest := rest - {id};
    }
    v := Accepted;
  }

  /** One step's share of the graph: its argument, condition and branch-target edges. */
  method CollectEdges(step: Step, ids: set<Id>) returns (edges: Option<set<(Id, Id)>>)
    ensures edges.Some? <==> ShallowStep(step)
    ensures edges.Some? ==> edges.value == StepEdges(step, ids)
  {
    var refs := {};
    for k := 0 to |step.arguments|
      invariant forall i :: 0 <= i < k ==> Shallow(step.arguments[i].1, MaxReferenceDepth)
      invariant refs == AllReferences(Values(step)[..k])
    {
      var found := Extract(step.arguments[k].1, 0);
      if found.None? {
        return None;
      }
      OneMoreReferenced(Values(step), k);
      refs := refs + found.value;
    }
    assert Values(step)[..|step.arguments|] == Values(step);
    var sources := {};
    if step.branching.Some? {
      sources := FindReferences(step.branching.value.condition);
      sources := sources - {step.stepId};
    }
    edges := Some(EdgesFrom(step, ids, refs, sources));
  }

  lemma OneMoreAdded(have: set<(Id, Id)>, added: set<(Id, Id)>, rest: set<(Id, Id)>, e: (Id, Id))
    requires rest <= added && e in rest
    ensures have + (added - (rest - {e})) == have + (added - rest) + {e}
  {
  }

  method AddEdges(
      ghost nodes: set<Id>, ghost have: set<(Id, Id)>, adj: Adjacency, degree: map<Id, nat>, added: set<(Id, Id)>)
      returns (adj': Adjacency, degree': map<Id, nat>)
    requires adj == AdjacencyOf(nodes, have) && CountsPredecessors(adj, degree)
    requires forall e :: e in added ==> e.0 in nodes && e.1 in nodes
    ensures adj' == AdjacencyOf(nodes, have + added) && CountsPredecessors(adj', degree')
  {
    adj', degree' := adj, degree;
    var rest := added;
    assert have + (added - rest) == have;
    while rest != {}
      invariant rest <= added
      invariant adj' == AdjacencyOf(nodes, have + (added - rest)) && CountsPredecessors(adj', degree')
    {
      var e :| e in rest;
      AdjacencyExtend(nodes, have + (added - rest), e);
      OneMoreAdded(have, added, rest, e);
      adj', degree' := AddEdge(adj', degree', e.0, e.1);
      rest := rest - {e};
    }
    assert added - rest == added;
  }

  method AddStep(step: Step, ids: set<Id>, ghost have: set<(Id, Id)>, adj: Adjacency, degree: map<Id, nat>)
      returns (graph: Option<(Adjacency, map<Id, nat>)>)
    requires step.stepId in ids && TargetsKnown(step, ids)
    requires adj == AdjacencyOf(ids, have) && CountsPredecessors(adj, degree)
    ensures graph.Some? <==> ShallowStep(step)
    ensures graph.Some? ==>
      && graph.value.0 == AdjacencyOf(ids, have + StepEdges(step, ids))
      && CountsPredecessors(graph.value.0, graph.value.1)
  {
    var edges := CollectEdges(step, ids);
    if edges.None? {
      return None;
    }
    EdgesInside(step, ids);
    var adj', degree' := AddEdges(ids, have, adj, degree, edges.value);
    graph := Some((adj', degree'));
  }

  method EmptyGraph(steps: seq<Step>, ids: set<Id>) returns (adj: Adjacency, degree: map<Id, nat>)
    ensures adj == AdjacencyOf(ids, DependencyEdges(steps[..0], ids)) && CountsPredecessors(adj, degree)
  {
    AdjacencyEmpty(ids);
    NoEdgesYet(steps, ids);
    adj := map u | u in ids :: {};
    degree := map u | u in ids :: 0;
    assert forall u :: u in ids ==> Predecessors(adj, ids, u) == {};
  }

  method BuildDependencies(steps: seq<Step>) returns (graph: Option<(Adjacency, map<Id, nat>)>)
    requires forall s :: s in steps ==> TargetsKnown(s, Ids(steps))
    ensures graph.Some? <==> forall s :: s in steps ==> ShallowStep(s)
    ensures graph.Some? ==>
      && graph.value.0 == DependencyGraph(steps)
      && CountsPredecessors(graph.value.0, graph.value.1)
  {
    var ids := Ids(steps);
    var adj, degree := EmptyGraph(steps, ids);
    for k := 0 to |steps|
      invariant forall s :: s in steps[..k] ==> ShallowStep(s)
      invariant adj == AdjacencyOf(ids, DependencyEdges(steps[..k], ids)) && CountsPredecessors(adj, degree)
    {
      assert steps[k] in steps;
      graph := AddStep(steps[k], ids, DependencyEdges(steps[..k], ids), adj, degree);
      if graph.None? {
        return;
      }
      adj, degree := graph.value.0, graph.value.1;
      EdgesExtend(steps, k, ids);
    }
    assert steps[..|steps|] == steps;
    graph := Some((adj, degree));
  }

  lemma NoEdgesYet(steps: seq<Step>, ids: set<Id>)
    ensures DependencyEdges(steps[..0], ids) == {}
  {
  }

  lemma GraphWellFormed(steps: seq<Step>)
    requires forall s :: s in steps ==> TargetsKnown(s, Ids(steps))
    ensures WellFormed(DependencyGraph(steps))
    ensures forall u, v :: Edge(DependencyGraph(steps), u, v)
                      <==> exists s :: s in steps && (u, v) in StepEdges(s, Ids(steps))
  {
    var ids := Ids(steps);
    forall e | e in DependencyEdges(steps, ids) ensures e.0 in ids && e.1 in ids {
      var s :| s in steps && e in StepEdges(s, ids);
      EdgesInside(s, ids);
    }
    AdjacencyEdges(ids, DependencyEdges(steps, ids));
  }

  /** `v` depends on `u`: `v` mentions `u` in an argument or its condition, or `u` may branch to `v`. */
  ghost predicate DependsOn(steps: seq<Step>, s: Step, u: Id, v: Id)
  {
    && s in steps
    && (|| (s.stepId == v && u in AllReferences(Values(s)))
        || (s.stepId == v && s.branching.Some? && u != v && u in ConditionReferences(s.branching.value.condition))
        || (s.stepId == u && v in s.Targets()))
  }

  /** The validator's graph has exactly the dependencies between steps of the macro. */
  lemma DependencyGraphIff(steps: seq<Step>, u: Id, v: Id)
    requires forall s :: s in steps ==> TargetsKnown(s, Ids(steps))
    ensures Edge(DependencyGraph(steps), u, v) <==> u in Ids(steps) && exists s :: DependsOn(steps, s, u, v)
  {
    GraphWellFormed(steps);
    forall s | s in steps && u in Ids(steps) ensures (u, v) in StepEdges(s, Ids(steps)) <==> DependsOn(steps, s, u, v) {
      StepEdgesIff(steps, s, u, v);
    }
  }

  lemma StepEdgesIff(steps: seq<Step>, s: Step, u: Id, v: Id)
    requires s in steps && u in Ids(steps)
    ensures (u, v) in StepEdges(s, Ids(steps)) <==> DependsOn(steps, s, u, v)
  {
  }

  /** `_validate_dependency_graph_acyclic`. */
  method CheckAcyclic(steps: seq<Step>) returns (v: Verdict)
    requires forall s :: s in steps ==> TargetsKnown(s, Ids(steps))
    ensures v == Rejected(TooDeep) <==> exists s :: s in steps && !ShallowStep(s)
    ensures v == Rejected(Cyclic)
       <==> (forall s :: s in steps ==> ShallowStep(s))
            && !Acyclic(DependencyGraph(steps))
    ensures v.Rejected? ==> v.error in {TooDeep, Cyclic}
  {
    var graph := BuildDependencies(steps);
    if graph.None? {
      return Rejected(TooDeep);
    }
    GraphWellFormed(steps);
    var ordered := Kahn(graph.value.0, graph.value.1);
    GreedyCompleteIffAcyclic(graph.value.0);
    assert DependencyGraph(steps).Keys == Ids(steps);
    v := if |ordered| != |Ids(steps)| then Rejected(Cyclic) else Accepted;
  }

  lemma EdgesInside(step: Step, ids: set<Id>)
    requires step.stepId in ids && TargetsKnown(step, ids)
    ensures forall e :: e in StepEdges(step, ids) ==> e.0 in ids && e.1 in ids
  {
  }

  lemma EdgesExtend(steps: seq<Step>, k: nat, ids: set<Id>)
    requires k < |steps|
    ensures DependencyEdges(steps[..k + 1], ids) == DependencyEdges(steps[..k], ids) + StepEdges(steps[k], ids)
  {
    assert steps[..k + 1] == steps[..k] + [steps[k]];
  }

  /** `validate_branch_targets`, which ends with the acyclicity check. */
  method Validate(r: Request) returns (v: Verdict)
    ensures v.Accepted? <==> Admissible(r)
    ensures v == Rejected(Cyclic)
       <==> WellFormedRequest(r) && (forall s :: s in r.steps ==> ShallowStep(s)) && !Acyclic(DependencyGraph(r.steps))
    ensures v == Rejected(TooDeep) <==> WellFormedRequest(r) && exists s :: s in r.steps && !ShallowStep(s)
    ensures v == Rejected(DuplicateStepId) <==> !UniqueIds(r.steps)
  {
    IdCount(r.steps);
    if |Ids(r.steps)| != |r.steps| {
      return Rejected(DuplicateStepId);
    }
    v := CheckTargets(r.steps);
    if v.Rejected? {
      return;
    }
    v := CheckApprovals(r);
    if v.Rejected? {
      return;
    }
    v := CheckAcyclic(r.steps);
  }
}
