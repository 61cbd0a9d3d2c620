/** `_evaluate_node` with its loops, and the whole call behind the validator. */
module Evaluator {
  import opened Wrappers
  import opened SafeEval
  import opened Evaluation
  import opened Sorting

  /** The recursive evaluator. The trace notes each call: the node itself first, then what is evaluated below it. */
  method EvaluateNode(py: Python, n: Node) returns (r: Result<Value, Error>, ghost visited: seq<Path>)
    ensures r == Eval(py, n).result
    ensures visited == Eval(py, n).visited
    decreases Size(n), 0
  {
    visited := [[]];
    ghost var below;
    if n.Constant? {
      r := if n.literal.OddLit? then Failure(Unsupported) else Success(Scalar(n.literal));
    } else if n.ListNode? || n.TupleNode? || n.SetNode? {
      r, visited := EvaluateItems(py, n);
    } else if n.DictNode? {
      if |n.keys| > MaxItems {
        return Failure(TooManyItems), visited;
      }
      var entries;
      entries, below := EvaluateEntries(py, n.keys, n.values);
      r := if entries.Failure? then Failure(entries.error) else Success(DictValue(entries.value));
      visited := visited + below;
    } else if n.BoolOp? {
      var values;
      values, below := EvaluateEach(py, n.operands);
      r := if values.Failure? then Failure(values.error) else Combine(n.op, values.value);
      visited := visited + below;
    } else if n.UnaryOp? {
      if !n.op.Not? {
        return Failure(Unsupported), visited;
      }
      var v;
      v, below := EvaluateNode(py, n.operand);
      r := if v.Failure? then v else Success(Boolean(!Truth(v.value)));
      visited := visited + Below(0, below);
    } else if n.Compare? {
      r, visited := EvaluateCompare(py, n);
    } else {
      r := Failure(Unsupported);
    }
  }

  method EvaluateItems(py: Python, n: Node) returns (r: Result<Value, Error>, ghost visited: seq<Path>)
    requires n.ListNode? || n.TupleNode? || n.SetNode?
    ensures r == EvalItems(py, n, n.items).result
    ensures visited == EvalItems(py, n, n.items).visited
    decreases SizeAll(n.items), 2
  {
    if |n.items| > MaxItems {
      return Failure(TooManyItems), [[]];
    }
    var values;
    values, visited := EvaluateEach(py, n.items);
    r := if values.Failure? then Failure(values.error) else Gather(n, values.value);
    visited := [[]] + visited;
  }

  method EvaluateCompare(py: Python, n: Node) returns (r: Result<Value, Error>, ghost visited: seq<Path>)
    requires n.Compare?
    ensures r == Eval(py, n).result
    ensures visited == Eval(py, n).visited
    decreases Size(n), 0, 0
  {
    var left;
    left, visited := EvaluateNode(py, n.left);
    visited := [[]] + Below(0, visited);
    if left.Failure? {
      return left, visited;
    }
    var b;
    ghost var chain;
    b, chain := EvaluateComparisons(py, left.value, n.ops, n.comparators);
    r := if b.Failure? then Failure(b.error) else Success(Boolean(b.value));
    visited := visited + chain;
  }

  // ----- Loops -----

  /** What an evaluation comes to after these values and these visits. */
  ghost function Onward<T>(done: seq<T>, visited: seq<Path>, o: Outcome<seq<T>>): Outcome<seq<T>>
  {
    Outcome(if o.result.Failure? then o.result else Success(done + o.result.value), visited + o.visited)
  }

  lemma OnwardFromStart<T>(o: Outcome<seq<T>>)
    ensures Onward([], [], o) == o
  {
    assert [] + o.visited == o.visited && (o.result.Success? ==> [] + o.result.value == o.result.value);
  }

  lemma OnwardMore<T>(done: seq<T>, visited: seq<Path>, x: T, v: seq<Path>, o: Outcome<seq<T>>)
    ensures Onward(done, visited,
      Outcome(if o.result.Failure? then o.result else Success([x] + o.result.value), v + o.visited))
         == Onward(done + [x], visited + v, o)
  {
    assert visited + (v + o.visited) == visited + v + o.visited;
    assert o.result.Success? ==> done + ([x] + o.result.value) == done + [x] + o.result.value;
  }

  method EvaluateEach(py: Python, ns: seq<Node>) returns (r: Result<seq<Value>, Error>, ghost visited: seq<Path>)
    ensures r == EvalAll(py, ns, 0).result
    ensures visited == EvalAll(py, ns, 0).visited
    decreases SizeAll(ns), 1
  {
    var values: seq<Value> := [];
    visited := [];
    assert ns[0..] == ns;
    OnwardFromStart(EvalAll(py, ns, 0));
    for k := 0 to |ns|
      invariant EvalAll(py, ns, 0) == Onward(values, visited, EvalAll(py, ns[k..], k))
    {
      assert ns[k..][0] == ns[k] && ns[k..][1..] == ns[k + 1..];
      SizeOfSuffix(ns, k);
      var v;
      ghost var below;
      v, below := EvaluateNode(py, ns[k]);
      if v.Failure? {
        return Failure(v.error), visited + Below(k, below);
      }
      OnwardMore(values, visited, v.value, Below(k, below), EvalAll(py, ns[k + 1..], k + 1));
      values, visited := values + [v.value], visited + Below(k, below);
    }
    assert values + [] == values && visited + [] == visited;
    r := Success(values);
  }

  /** One key and its value. */
  method EvaluateEntry(py: Python, key: Option<Node>, value: Node, ghost i: nat)
      returns (r: Result<(Value, Value), Error>, ghost visited: seq<Path>)
    ensures r == EvalEntry(py, key, value, i).result
    ensures visited == EvalEntry(py, key, value, i).visited
    decreases SizeKey(key) + Size(value), 1
  {
    if key.None? {
      return Failure(Unsupported), [];
    }
    assert SizeKey(key) == Size(key.value);
    var k;
    k, visited := EvaluateNode(py, key.value);
    visited := Below(i, visited);
    if k.Failure? {
      return Failure(k.error), visited;
    }
    if !k.value.Scalar? {
      return Failure(NotHashable), visited;
    }
    var v;
    ghost var below;
    v, below := EvaluateNode(py, value);
    visited := visited + Below(i + 1, below);
    r := if v.Failure? then Failure(v.error) else Success((k.value, v.value));
  }

  /** One entry of a dictionary and then the others. */
  lemma EntriesStep(py: Python, keys: seq<Option<Node>>, values: seq<Node>, i: nat)
    requires i < |keys| && i < |values|
    ensures var o := EvalDict(py, keys[i..], values[i..], 2 * i);
      var e := EvalEntry(py, keys[i], values[i], 2 * i);
      var rest := EvalDict(py, keys[i + 1..], values[i + 1..], 2 * i + 2);
      o == if e.result.Failure? then Outcome(Failure(e.result.error), e.visited)
           else Outcome(if rest.result.Failure? then rest.result else Success([e.result.value] + rest.result.value),
                        e.visited + rest.visited)
  {
    assert keys[i..][0] == keys[i] && keys[i..][1..] == keys[i + 1..];
    assert values[i..][0] == values[i] && values[i..][1..] == values[i + 1..];
  }

  method EvaluateEntries(py: Python, keys: seq<Option<Node>>, values: seq<Node>)
      returns (r: Result<seq<(Value, Value)>, Error>, ghost visited: seq<Path>)
    ensures r == EvalDict(py, keys, values, 0).result
    ensures visited == EvalDict(py, keys, values, 0).visited
    decreases SizeKeys(keys) + SizeAll(values), 2
  {
    var entries: seq<(Value, Value)> := [];
    visited := [];
    var i := 0;
    assert keys[0..] == keys && values[0..] == values;
    OnwardFromStart(EvalDict(py, keys, values, 0));
    while i < |keys| && i < |values|
      invariant 0 <= i <= |keys| && i <= |values|
      invariant EvalDict(py, keys, values, 0) == Onward(entries, visited, EvalDict(py, keys[i..], values[i..], 2 * i))
    {
      EntriesStep(py, keys, values, i);
      SizeOfKeySuffix(keys, i);
      SizeOfSuffix(values, i);
      var e;
      ghost var below;
      e, below := EvaluateEntry(py, keys[i], values[i], 2 * i);
      if e.Failure? {
        return Failure(e.error), visited + below;
      }
      OnwardMore(entries, visited, e.value, below, EvalDict(py, keys[i + 1..], values[i + 1..], 2 * i + 2));
      entries, visited := entries + [e.value], visited + below;
      i := i + 1;
    }
    assert entries + [] == entries && visited + [] == visited;
    r := Success(entries);
  }

  method EvaluateLink(py: Python, left: Value, op: Operator, comparator: Node, ghost i: nat)
      returns (r: Result<(bool, Value), Error>, ghost visited: seq<Path>)
    ensures r == EvalLink(py, left, op, comparator, i).result
    ensures visited == EvalLink(py, left, op, comparator, i).visited
    decreases Size(comparator), 1
  {
    var right;
    right, visited := EvaluateNode(py, comparator);
    visited := Below(i, visited);
    r := Link(py, left, op, right);
  }

  /** What a chain comes to after these visits. */
  ghost function ChainOnward(visited: seq<Path>, o: Outcome<bool>): Outcome<bool>
  {
    Outcome(o.result, visited + o.visited)
  }

  /** One comparison of a chain and then the others. */
  lemma ChainStep(py: Python, left: Value, ops: seq<Operator>, comparators: seq<Node>, i: nat, visited: seq<Path>)
    requires i < |ops| && i < |comparators|
    ensures var goal := ChainOnward(visited, EvalChain(py, left, ops[i..], comparators[i..], i + 1));
      var link := EvalLink(py, left, ops[i], comparators[i], i + 1);
      goal == if link.result.Failure? then Outcome(Failure(link.result.error), visited + link.visited)
              else if !link.result.value.0 then Outcome(Success(false), visited + link.visited)
              else ChainOnward(visited + link.visited,
                               EvalChain(py, link.result.value.1, ops[i + 1..], comparators[i + 1..], i + 2))
  {
    assert ops[i..][0] == ops[i] && ops[i..][1..] == ops[i + 1..];
    assert comparators[i..][0] == comparators[i] && comparators[i..][1..] == comparators[i + 1..];
    var link := EvalLink(py, left, ops[i], comparators[i], i + 1);
    if link.result.Success? && link.result.value.0 {
      var tail := EvalChain(py, link.result.value.1, ops[i + 1..], comparators[i + 1..], i + 2);
      assert visited + (link.visited + tail.visited) == visited + link.visited + tail.visited;
    }
  }

  lemma ChainStart(py: Python, first: Value, ops: seq<Operator>, comparators: seq<Node>)
    ensures var goal := EvalChain(py, first, ops, comparators, 1);
      goal == ChainOnward([], EvalChain(py, first, ops[0..], comparators[0..], 1))
  {
    assert ops[0..] == ops && comparators[0..] == comparators;
    assert [] + EvalChain(py, first, ops, comparators, 1).visited == EvalChain(py, first, ops, comparators, 1).visited;
  }

  lemma ChainEnd(py: Python, left: Value, ops: seq<Operator>, comparators: seq<Node>, i: nat, visited: seq<Path>)
    requires i <= |ops| && i <= |comparators| && (i == |ops| || i == |comparators|)
    ensures ChainOnward(visited, EvalChain(py, left, ops[i..], comparators[i..], i + 1))
      == Outcome(Success(true), visited)
  {
    assert visited + [] == visited;
  }

  method EvaluateComparisons(py: Python, first: Value, ops: seq<Operator>, comparators: seq<Node>)
      returns (r: Result<bool, Error>, ghost visited: seq<Path>)
    ensures r == EvalChain(py, first, ops, comparators, 1).result
    ensures visited == EvalChain(py, first, ops, comparators, 1).visited
    decreases SizeAll(comparators), 2
  {
    var left := first;
    visited := [];
    var i := 0;
    ghost var goal := EvalChain(py, first, ops, comparators, 1);
    ChainStart(py, first, ops, comparators);
    while i < |ops| && i < |comparators|
      invariant 0 <= i <= |ops| && i <= |comparators|
      invariant goal == ChainOnward(visited, EvalChain(py, left, ops[i..], comparators[i..], i + 1))
    {
      ChainStep(py, left, ops, comparators, i, visited);
      SizeOfSuffix(comparators, i);
      var link;
      ghost var below;
      link, below := EvaluateLink(py, left, ops[i], comparators[i], i + 1);
      visited := visited + below;
      if link.Failure? {
        return Failure(link.error), visited;
      }
      if !link.value.0 {
        return Success(false), visited;
      }
      left := link.value.1;
      i := i + 1;
    }
    ChainEnd(py, left, ops, comparators, i, visited);
    r := Success(true);
  }

  // ----- The whole call -----

  /**
    `evaluate_safe_expression` on a parsed tree; the root expression is a node of its own. Outside
    the language or the node budget nothing is evaluated; inside, no failure says "unsupported",
    a value that is not a boolean is refused, and no node is evaluated twice.
   */
  method EvaluateSafeExpression(py: Python, body: Node) returns (r: Result<bool, Error>, ghost visited: seq<Path>)
    ensures !Allowed(body) || 1 + Size(body) > 256 ==>
      && visited == []
      && ((r == Failure(Unsupported) && !Allowed(body)) || (r == Failure(TooComplex) && 1 + Size(body) > 256))
    ensures Allowed(body) && 1 + Size(body) <= 256 ==>
      && r != Failure(Unsupported) && r != Failure(TooComplex)
      && (forall b :: r == Success(b) <==> Eval(py, body).result == Success(Boolean(b)))
    ensures Distinct(visited) && |visited| < 256 && forall path :: path in visited ==> IsPosition(body, path)
  {
    var validator := new SafeExpressionValidator(MaxNodes);
    var refused := validator.CountNode();
    refused := validator.Visit(body);
    if refused.Some? {
      return Failure(refused.value), [];
    }
    NoUnsupported(py, body);
    EachNodeOnce(py, body);
    forall path | path in Eval(py, body).visited ensures IsPosition(body, path) {
      VisitedArePositions(py, body, path);
    }
    var v;
    v, visited := EvaluateNode(py, body);
    if v.Failure? {
      return Failure(v.error), visited;
    }
    if !(v.value.Scalar? && v.value.literal.BoolLit?) {
      return Failure(NotBoolean), visited;
    }
    r := Success(v.value.literal.b);
  }
}
