/**
  Laws of branch expressions. `and` and `or` evaluate every operand, so operands may be
  reordered and negations pushed inward without changing the result or whether it fails.
 */
module ExpressionLaws {
  import opened Wrappers
  import opened SafeEval
  import opened Evaluation

  function ResultOf(py: Python, n: Node): Result<Value, Error> { Eval(py, n).result }

  predicate Succeeds(py: Python, n: Node) { ResultOf(py, n).Success? }

  ghost predicate AllSucceed(py: Python, ns: seq<Node>) { forall i :: 0 <= i < |ns| ==> Succeeds(py, ns[i]) }

  predicate Holds(py: Python, n: Node) { Succeeds(py, n) && Truth(ResultOf(py, n).value) }

  ghost predicate AllHold(py: Python, ns: seq<Node>) { forall i :: 0 <= i < |ns| ==> Holds(py, ns[i]) }

  ghost predicate SomeHolds(py: Python, ns: seq<Node>) { exists i :: 0 <= i < |ns| && Holds(py, ns[i]) }

  // ----- What a list of operands evaluates to -----

  lemma {:induction false} AllResult(py: Python, ns: seq<Node>, i: nat)
    ensures EvalAll(py, ns, i).result.Success? <==> AllSucceed(py, ns)
    ensures AllSucceed(py, ns) ==>
      var values := EvalAll(py, ns, i).result.value;
      |values| == |ns| && forall j :: 0 <= j < |ns| ==> values[j] == ResultOf(py, ns[j]).value
    decreases |ns|
  {
    if ns != [] {
      AllResult(py, ns[1..], i + 1);
      assert AllSucceed(py, ns) <==> Succeeds(py, ns[0]) && AllSucceed(py, ns[1..]);
    }
  }

  /** `and` and `or` fail exactly when some operand does, and otherwise are the plain connectives. */
  lemma ConnectiveMeaning(py: Python, op: Operator, ns: seq<Node>)
    requires BoolOperator(op)
    ensures Succeeds(py, BoolOp(op, ns)) <==> AllSucceed(py, ns)
    ensures AllSucceed(py, ns) && op.And? ==>
      ResultOf(py, BoolOp(op, ns)) == Success(Boolean(AllHold(py, ns)))
    ensures AllSucceed(py, ns) && op.Or? ==>
      ResultOf(py, BoolOp(op, ns)) == Success(Boolean(SomeHolds(py, ns)))
  {
    AllResult(py, ns, 0);
  }

  // ----- Reordering -----

  lemma SameMembers(a: seq<Node>, b: seq<Node>)
    requires multiset(a) == multiset(b)
    ensures forall n :: n in a <==> n in b
  {
    assert forall n :: n in a <==> n in multiset(a);
  }

  lemma {:induction false} SizeWithout(ns: seq<Node>, k: nat)
    requires k < |ns|
    ensures SizeAll(ns) == Size(ns[k]) + SizeAll(ns[..k] + ns[k + 1..])
  {
    if k > 0 {
      SizeWithout(ns[1..], k - 1);
      var rest := ns[..k] + ns[k + 1..];
      assert rest[0] == ns[0] && rest[1..] == ns[1..][..k - 1] + ns[1..][k..];
    } else {
      assert ns[..0] + ns[1..] == ns[1..];
    }
  }

  lemma WithoutFirst<T>(a: seq<T>)
    requires a != []
    ensures multiset(a[1..]) == multiset(a) - multiset{a[0]}
  {
    assert a == [a[0]] + a[1..];
  }

  lemma WithoutPlace<T>(b: seq<T>, k: nat)
    requires k < |b|
    ensures multiset(b[..k] + b[k + 1..]) == multiset(b) - multiset{b[k]}
  {
    assert b == b[..k] + [b[k]] + b[k + 1..];
    assert multiset(b) == multiset(b[..k]) + multiset{b[k]} + multiset(b[k + 1..]);
  }

  lemma DropSame<T>(a: seq<T>, b: seq<T>, k: nat)
    requires multiset(a) == multiset(b) && k < |b| && a != [] && a[0] == b[k]
    ensures multiset(a[1..]) == multiset(b[..k] + b[k + 1..])
  {
    WithoutFirst(a);
    WithoutPlace(b, k);
  }

  lemma {:induction false} SizeOfPermutation(a: seq<Node>, b: seq<Node>)
    requires multiset(a) == multiset(b)
    ensures SizeAll(a) == SizeAll(b)
    decreases |a|
  {
    if a == [] {
      assert |a| == |multiset(a)| && |b| == |multiset(b)|;
    } else {
      SameMembers(a, b);
      assert a[0] in b;
      var k :| 0 <= k < |b| && b[k] == a[0];
      var rest := b[..k] + b[k + 1..];
      DropSame(a, b, k);
      SizeOfPermutation(a[1..], rest);
      SizeWithout(b, k);
    }
  }

  lemma MembersDecide(py: Python, a: seq<Node>, b: seq<Node>)
    requires forall n :: n in a ==> n in b
    ensures AllSucceed(py, b) ==> AllSucceed(py, a)
    ensures AllHold(py, b) ==> AllHold(py, a)
    ensures SomeHolds(py, a) ==> SomeHolds(py, b)
    ensures AllAllowed(b) ==> AllAllowed(a)
  {
    forall i | 0 <= i < |a| ensures exists j :: 0 <= j < |b| && b[j] == a[i] {
      assert a[i] in b;
    }
  }

  /** Reordering the operands of `and` or `or` changes neither failure nor the value. */
  lemma ReorderingIsHarmless(py: Python, op: Operator, a: seq<Node>, b: seq<Node>)
    requires BoolOperator(op) && multiset(a) == multiset(b)
    ensures Succeeds(py, BoolOp(op, a)) <==> Succeeds(py, BoolOp(op, b))
    ensures Succeeds(py, BoolOp(op, a)) ==> ResultOf(py, BoolOp(op, a)) == ResultOf(py, BoolOp(op, b))
  {
    SameMembers(a, b);
    ConnectiveMeaning(py, op, a);
    ConnectiveMeaning(py, op, b);
    MembersDecide(py, a, b);
    MembersDecide(py, b, a);
  }

  /** Nor does it change whether the validator accepts. */
  lemma ReorderingIsAccepted(py: Python, op: Operator, a: seq<Node>, b: seq<Node>)
    requires multiset(a) == multiset(b)
    ensures Size(BoolOp(op, a)) == Size(BoolOp(op, b)) && (Allowed(BoolOp(op, a)) <==> Allowed(BoolOp(op, b)))
  {
    SizeOfPermutation(a, b);
    SameMembers(a, b);
    MembersDecide(py, a, b);
    MembersDecide(py, b, a);
  }

  // ----- Negation normal form -----

  function Negation(n: Node): Node { UnaryOp(Not, n) }

  function Negations(ns: seq<Node>): seq<Node>
  {
    seq(|ns|, i requires 0 <= i < |ns| => Negation(ns[i]))
  }

  function Dual(op: Operator): Operator { if op.And? then Or else And }

  lemma {:induction false} NegationsResult(py: Python, ns: seq<Node>, i: nat, j: nat)
    ensures EvalAll(py, ns, i).result.Failure? ==> EvalAll(py, Negations(ns), j).result == EvalAll(py, ns, i).result
    ensures EvalAll(py, ns, i).result.Success? <==> EvalAll(py, Negations(ns), j).result.Success?
    decreases |ns|
  {
    if ns != [] {
      NegationsResult(py, ns[1..], i + 1, j + 1);
      assert Negations(ns)[0] == Negation(ns[0]) && Negations(ns)[1..] == Negations(ns[1..]);
      assert ResultOf(py, Negation(ns[0])).Failure? ==> ResultOf(py, ns[0]) == ResultOf(py, Negation(ns[0]));
    }
  }

  lemma NegationsHold(py: Python, ns: seq<Node>)
    requires AllSucceed(py, ns)
    ensures AllSucceed(py, Negations(ns))
    ensures AllHold(py, Negations(ns)) <==> !SomeHolds(py, ns)
    ensures SomeHolds(py, Negations(ns)) <==> !AllHold(py, ns)
  {
    forall i | 0 <= i < |ns|
      ensures Succeeds(py, Negations(ns)[i]) && (Holds(py, Negations(ns)[i]) <==> !Holds(py, ns[i]))
    {
      assert Succeeds(py, ns[i]) && Negations(ns)[i] == Negation(ns[i]);
    }
    if !AllHold(py, ns) {
      var i :| 0 <= i < |ns| && !Holds(py, ns[i]);
      assert Holds(py, Negations(ns)[i]);
    }
    if !SomeHolds(py, Negations(ns)) {
      assert forall i :: 0 <= i < |ns| ==> !Holds(py, Negations(ns)[i]);
    }
  }

  /** De Morgan's laws, down to which operand's failure is reported. */
  lemma DeMorgan(py: Python, op: Operator, ns: seq<Node>)
    requires BoolOperator(op)
    ensures ResultOf(py, Negation(BoolOp(op, ns))) == ResultOf(py, BoolOp(Dual(op), Negations(ns)))
  {
    AllResult(py, ns, 0);
    if AllSucceed(py, ns) {
      NegationsHold(py, ns);
      ConnectiveMeaning(py, op, ns);
      ConnectiveMeaning(py, Dual(op), Negations(ns));
    } else {
      NegationsResult(py, ns, 0, 0);
      var e := EvalAll(py, ns, 0).result.error;
      assert ResultOf(py, BoolOp(op, ns)) == Failure(e);
      assert ResultOf(py, BoolOp(Dual(op), Negations(ns))) == Failure(e);
    }
  }

  /** Each negation pushed inward costs two nodes of the validator's budget. */
  lemma {:induction false} NegationsSize(ns: seq<Node>)
    ensures SizeAll(Negations(ns)) == SizeAll(ns) + 2 * |ns|
    ensures AllAllowed(Negations(ns)) <==> AllAllowed(ns)
  {
    if ns != [] {
      NegationsSize(ns[1..]);
      assert Negations(ns)[0] == Negation(ns[0]) && Negations(ns)[1..] == Negations(ns[1..]);
    }
    assert forall i :: 0 <= i < |ns| ==> (Allowed(Negations(ns)[i]) <==> Allowed(ns[i]));
    assert AllAllowed(Negations(ns)) ==> forall i :: 0 <= i < |ns| ==> Allowed(Negations(ns)[i]);
  }

  lemma DeMorganSize(op: Operator, ns: seq<Node>)
    requires BoolOperator(op)
    ensures Size(BoolOp(Dual(op), Negations(ns))) + 2 == Size(Negation(BoolOp(op, ns))) + 2 * |ns|
    ensures Allowed(BoolOp(Dual(op), Negations(ns))) <==> Allowed(Negation(BoolOp(op, ns)))
  {
    NegationsSize(ns);
  }

  /** Nodes whose value, if there is one, is a boolean. */
  predicate Logical(n: Node) { n.BoolOp? || n.UnaryOp? || n.Compare? }

  lemma LogicalIsBoolean(py: Python, n: Node)
    requires Logical(n) && Succeeds(py, n)
    ensures ResultOf(py, n).value == Boolean(Holds(py, n))
  {
  }

  lemma DoubleNegation(py: Python, n: Node)
    requires Logical(n)
    ensures ResultOf(py, Negation(Negation(n))) == ResultOf(py, n)
  {
    if Succeeds(py, n) {
      LogicalIsBoolean(py, n);
      assert ResultOf(py, Negation(n)) == Success(Boolean(!Holds(py, n)));
    } else {
      assert ResultOf(py, Negation(n)) == ResultOf(py, n);
    }
  }

  /** `n`, or its negation, with negations pushed down through `and` and `or`. */
  function Push(n: Node, negate: bool): Node
    decreases Size(n), 0
  {
    if n.UnaryOp? && n.op.Not? then
      if !negate then Push(n.operand, true)
      else if Logical(n.operand) then Push(n.operand, false)
      else Negation(n)
    else if n.BoolOp? && BoolOperator(n.op) then
      BoolOp(if negate then Dual(n.op) else n.op, PushAll(n.operands, negate))
    else if negate then Negation(n) else n
  }

  function PushAll(ns: seq<Node>, negate: bool): (r: seq<Node>)
    ensures |r| == |ns|
    decreases SizeAll(ns), |ns| + 1
  {
    if ns == [] then [] else [Push(ns[0], negate)] + PushAll(ns[1..], negate)
  }

  lemma {:induction false} SameOperands(py: Python, a: seq<Node>, b: seq<Node>, i: nat)
    requires |a| == |b| && forall k :: 0 <= k < |a| ==> ResultOf(py, a[k]) == ResultOf(py, b[k])
    ensures EvalAll(py, a, i).result == EvalAll(py, b, i).result
    decreases |a|
  {
    if a != [] {
      assert ResultOf(py, a[0]) == ResultOf(py, b[0]);
      SameOperands(py, a[1..], b[1..], i + 1);
    }
  }

  function Signed(n: Node, negate: bool): Node { if negate then Negation(n) else n }

  /** Pushing negations inward keeps the result, failures included, of every expression. */
  lemma {:induction false} PushKeepsMeaning(py: Python, n: Node, negate: bool)
    ensures ResultOf(py, Push(n, negate)) == ResultOf(py, Signed(n, negate))
    decreases Size(n), 0
  {
    if n.UnaryOp? && n.op.Not? {
      if !negate {
        PushKeepsMeaning(py, n.operand, true);
      } else if Logical(n.operand) {
        PushKeepsMeaning(py, n.operand, false);
        DoubleNegation(py, n.operand);
      }
    } else if n.BoolOp? && BoolOperator(n.op) {
      PushOperands(py, n.operands, negate);
      var signed := if negate then Negations(n.operands) else n.operands;
      SameOperands(py, PushAll(n.operands, negate), signed, 0);
      if negate {
        DeMorgan(py, n.op, n.operands);
      }
    }
  }

  lemma {:induction false} PushOperands(py: Python, ns: seq<Node>, negate: bool)
    ensures forall k :: 0 <= k < |ns| ==> ResultOf(py, PushAll(ns, negate)[k]) == ResultOf(py, Signed(ns[k], negate))
    decreases SizeAll(ns), |ns| + 1
  {
    if ns != [] {
      PushKeepsMeaning(py, ns[0], negate);
      PushOperands(py, ns[1..], negate);
      forall k | 0 <= k < |ns| ensures ResultOf(py, PushAll(ns, negate)[k]) == ResultOf(py, Signed(ns[k], negate)) {
        assert k > 0 ==> PushAll(ns, negate)[k] == PushAll(ns[1..], negate)[k - 1] && ns[k] == ns[1..][k - 1];
      }
    }
  }

  /** No negation stands above an `and` or an `or`. */
  predicate Normal(n: Node)
  {
    match n
    case BoolOp(op, operands) => forall i :: 0 <= i < |operands| ==> Normal(operands[i])
    case UnaryOp(_, operand) => !operand.BoolOp? && Normal(operand)
    case _ => true
  }

  lemma {:induction false} PushIsNormal(n: Node, negate: bool)
    requires Allowed(n)
    ensures Normal(Push(n, negate))
    decreases Size(n), 0
  {
    if n.UnaryOp? {
      PushIsNormal(n.operand, true);
      PushIsNormal(n.operand, false);
    } else if n.BoolOp? {
      PushAllNormal(n.operands, negate);
    }
  }

  lemma {:induction false} PushAllNormal(ns: seq<Node>, negate: bool)
    requires AllAllowed(ns)
    ensures forall i :: 0 <= i < |ns| ==> Normal(PushAll(ns, negate)[i])
    decreases SizeAll(ns), |ns| + 1
  {
    if ns != [] {
      PushIsNormal(ns[0], negate);
      PushAllNormal(ns[1..], negate);
      forall i | 0 <= i < |ns| ensures Normal(PushAll(ns, negate)[i]) {
        assert i > 0 ==> PushAll(ns, negate)[i] == PushAll(ns[1..], negate)[i - 1];
      }
    }
  }
}
