/**
  What each expression means on values: literals and containers, truth, every comparison, and
  chains of them.
 */
module ComparisonLaws {
  import opened Wrappers
  import opened SafeEval
  import opened Evaluation
  import opened ExpressionLaws
  import Text

  function Binary(left: Node, op: Operator, right: Node): Node { Compare(left, [op], [right]) }

  /** One comparison of two operands that have values is that comparison of the values. */
  lemma {:induction false} BinaryIs(py: Python, left: Node, op: Operator, right: Node)
    requires Succeeds(py, left) && Succeeds(py, right)
    ensures var c := Compared(py, op, ResultOf(py, left).value, ResultOf(py, right).value);
      ResultOf(py, Binary(left, op, right)) == if c.Failure? then Failure(c.error) else Success(Boolean(c.value))
  {
    var l := ResultOf(py, left).value;
    var link := EvalLink(py, l, op, right, 1);
    var o := EvalChain(py, l, [op], [right], 1);
    assert [op][1..] == [] && [right][1..] == [];
    assert link.result.Success? && link.result.value.0 ==>
      EvalChain(py, link.result.value.1, [], [], 2).result == Success(true);
  }

  // ----- Ordered comparisons -----

  predicate OrderedOperator(op: Operator) { op.Lt? || op.LtE? || op.Gt? || op.GtE? }

  /** Four comparisons of one pair, given how the pair is ordered. */
  ghost predicate Ordering(py: Python, a: Literal, b: Literal, less: bool, equal: bool)
  {
    && ResultOf(py, Binary(Constant(a), Lt, Constant(b))) == Success(Boolean(less))
    && ResultOf(py, Binary(Constant(a), LtE, Constant(b))) == Success(Boolean(less || equal))
    && ResultOf(py, Binary(Constant(a), Gt, Constant(b))) == Success(Boolean(!less && !equal))
    && ResultOf(py, Binary(Constant(a), GtE, Constant(b))) == Success(Boolean(!less))
  }

  lemma ConstantIs(py: Python, a: Literal)
    requires !a.OddLit?
    ensures ResultOf(py, Constant(a)) == Success(Scalar(a))
  {
  }

  lemma OrderingOf(py: Python, a: Literal, b: Literal)
    requires SameType(a, b) && (LiteralLess(b, a) <==> !LiteralLess(a, b) && a != b)
    requires LiteralLess(a, b) ==> a != b
    ensures Ordering(py, a, b, LiteralLess(a, b), a == b)
  {
    ConstantIs(py, a);
    ConstantIs(py, b);
    BinaryIs(py, Constant(a), Lt, Constant(b));
    BinaryIs(py, Constant(a), LtE, Constant(b));
    BinaryIs(py, Constant(a), Gt, Constant(b));
    BinaryIs(py, Constant(a), GtE, Constant(b));
  }

  lemma IntegersCompare(py: Python, m: int, n: int)
    ensures Ordering(py, IntLit(m), IntLit(n), m < n, m == n)
  {
    OrderingOf(py, IntLit(m), IntLit(n));
  }

  lemma FloatsCompare(py: Python, x: real, y: real)
    ensures Ordering(py, FloatLit(x), FloatLit(y), x < y, x == y)
  {
    OrderingOf(py, FloatLit(x), FloatLit(y));
  }

  lemma BooleansCompare(py: Python, p: bool, q: bool)
    ensures Ordering(py, BoolLit(p), BoolLit(q), !p && q, p == q)
  {
    OrderingOf(py, BoolLit(p), BoolLit(q));
  }

  lemma StringsCompare(py: Python, s: string, t: string)
    ensures Ordering(py, StrLit(s), StrLit(t), Text.Less(s, t), s == t)
  {
    Text.LessTotal(s, t);
    Text.LessIrreflexive(s);
    if Text.Less(s, t) && Text.Less(t, s) {
      Text.LessTransitive(s, t, s);
    }
    OrderingOf(py, StrLit(s), StrLit(t));
  }

  /** Two booleans, two integers, two floats or two strings. */
  ghost predicate Orderable(l: Value, r: Value)
  {
    && l.Scalar? && r.Scalar?
    && ((l.literal.BoolLit? && r.literal.BoolLit?) || (l.literal.IntLit? && r.literal.IntLit?)
        || (l.literal.FloatLit? && r.literal.FloatLit?) || (l.literal.StrLit? && r.literal.StrLit?))
  }

  /** An ordered comparison of any other pair of values fails, and of no orderable pair. */
  lemma OrderFailsIff(py: Python, left: Node, op: Operator, right: Node)
    requires OrderedOperator(op) && Succeeds(py, left) && Succeeds(py, right)
    ensures ResultOf(py, Binary(left, op, right)) == Failure(NotOrdered) <==>
      !Orderable(ResultOf(py, left).value, ResultOf(py, right).value)
    ensures Orderable(ResultOf(py, left).value, ResultOf(py, right).value) ==> Succeeds(py, Binary(left, op, right))
  {
    BinaryIs(py, left, op, right);
  }

  // ----- Equality, identity, membership -----

  lemma EqualityIs(py: Python, left: Node, right: Node)
    requires Succeeds(py, left) && Succeeds(py, right)
    ensures var l, r := ResultOf(py, left).value, ResultOf(py, right).value;
      && ResultOf(py, Binary(left, Eq, right)) == Success(Boolean(py.equal(l, r)))
      && ResultOf(py, Binary(left, NotEq, right)) == Success(Boolean(!py.equal(l, r)))
      && ResultOf(py, Binary(left, Is, right)) == Success(Boolean(py.same(l, r)))
      && ResultOf(py, Binary(left, IsNot, right)) == Success(Boolean(!py.same(l, r)))
  {
    BinaryIs(py, left, Eq, right);
    BinaryIs(py, left, NotEq, right);
    BinaryIs(py, left, Is, right);
    BinaryIs(py, left, IsNot, right);
  }

  /** Membership asks the container on the right; numbers, booleans and `None` are none. */
  lemma MembershipIs(py: Python, left: Node, right: Node)
    requires Succeeds(py, left) && Succeeds(py, right)
    ensures var l, r := ResultOf(py, left).value, ResultOf(py, right).value;
      var within, without := ResultOf(py, Binary(left, In, right)), ResultOf(py, Binary(left, NotIn, right));
      if r.Scalar? && !r.literal.StrLit? then within == without == Failure(NotContainer)
      else if py.contains(l, r).None? then within == without == Failure(TypeFault)
      else
        && within == Success(Boolean(py.contains(l, r).value))
        && without == Success(Boolean(!py.contains(l, r).value))
  {
    BinaryIs(py, left, In, right);
    BinaryIs(py, left, NotIn, right);
  }

  // ----- Chains -----

  /** The operand on the left of comparison `i`. */
  function LeftOf(left: Node, comparators: seq<Node>, i: nat): Node
    requires i <= |comparators|
  {
    if i == 0 then left else comparators[i - 1]
  }

  /** Comparison `i` of the chain, written by itself, is true. */
  ghost predicate LinkHolds(py: Python, left: Node, ops: seq<Operator>, comparators: seq<Node>, i: nat)
    requires i < |ops| && i < |comparators|
  {
    ResultOf(py, Binary(LeftOf(left, comparators, i), ops[i], comparators[i])) == Success(Boolean(true))
  }

  lemma LinkHoldsIff(py: Python, left: Node, op: Operator, right: Node, i: nat)
    requires Succeeds(py, left)
    ensures ResultOf(py, Binary(left, op, right)) == Success(Boolean(true)) <==>
      var link := EvalLink(py, ResultOf(py, left).value, op, right, i); link.result.Success? && link.result.value.0
  {
    if Succeeds(py, right) {
      BinaryIs(py, left, op, right);
    } else {
      var l := ResultOf(py, left).value;
      assert EvalLink(py, l, op, right, 1).result == Failure(ResultOf(py, right).error);
      assert EvalChain(py, l, [op], [right], 1).result == Failure(ResultOf(py, right).error);
    }
  }

  lemma {:induction false} ChainHolds(py: Python, left: Node, ops: seq<Operator>, comparators: seq<Node>, i: nat)
    requires Succeeds(py, left)
    ensures EvalChain(py, ResultOf(py, left).value, ops, comparators, i).result == Success(true) <==>
      forall j :: 0 <= j < |ops| && j < |comparators| ==> LinkHolds(py, left, ops, comparators, j)
    decreases |comparators|
  {
    if ops != [] && comparators != [] {
      LinkHoldsIff(py, left, ops[0], comparators[0], i);
      assert LinkHolds(py, left, ops, comparators, 0) <==>
        ResultOf(py, Binary(left, ops[0], comparators[0])) == Success(Boolean(true));
      if LinkHolds(py, left, ops, comparators, 0) {
        ChainHolds(py, comparators[0], ops[1..], comparators[1..], i + 1);
        LinksShift(py, left, ops, comparators);
      }
    }
  }

  lemma LinksShift(py: Python, left: Node, ops: seq<Operator>, comparators: seq<Node>)
    requires ops != [] && comparators != []
    ensures (forall j :: 0 <= j < |ops[1..]| && j < |comparators[1..]| ==>
               LinkHolds(py, comparators[0], ops[1..], comparators[1..], j)) <==>
            (forall j :: 1 <= j < |ops| && j < |comparators| ==> LinkHolds(py, left, ops, comparators, j))
  {
    forall j | 0 <= j < |ops[1..]| && j < |comparators[1..]|
      ensures LinkHolds(py, comparators[0], ops[1..], comparators[1..], j) <==>
        LinkHolds(py, left, ops, comparators, j + 1)
    {
      assert LeftOf(comparators[0], comparators[1..], j) == LeftOf(left, comparators, j + 1);
    }
    if forall j :: 0 <= j < |ops[1..]| && j < |comparators[1..]| ==>
      LinkHolds(py, comparators[0], ops[1..], comparators[1..], j) {
      forall j | 1 <= j < |ops| && j < |comparators| ensures LinkHolds(py, left, ops, comparators, j) {
        assert LinkHolds(py, comparators[0], ops[1..], comparators[1..], j - 1);
      }
    }
  }

  /** A chain is true exactly when each of its comparisons, written by itself, is true. */
  lemma ChainIsConjunction(py: Python, left: Node, ops: seq<Operator>, comparators: seq<Node>)
    requires |ops| == |comparators| >= 1
    ensures ResultOf(py, Compare(left, ops, comparators)) == Success(Boolean(true)) <==>
      forall j :: 0 <= j < |ops| ==> LinkHolds(py, left, ops, comparators, j)
  {
    if Succeeds(py, left) {
      ChainHolds(py, left, ops, comparators, 1);
    } else {
      assert ResultOf(py, Binary(left, ops[0], comparators[0])).Failure?;
      assert !LinkHolds(py, left, ops, comparators, 0);
    }
  }

  function AsValue(r: Result<bool, Error>): Result<Value, Error>
  {
    if r.Failure? then Failure(r.error) else Success(Boolean(r.value))
  }

  /** The first comparison of a chain that is not true decides it, failure included. */
  lemma {:induction false} ChainStopsAt(
      py: Python, left: Node, ops: seq<Operator>, comparators: seq<Node>, i: nat, n: nat)
    requires Succeeds(py, left) && i < |ops| && i < |comparators|
    requires (forall j :: 0 <= j < i ==> LinkHolds(py, left, ops, comparators, j))
    requires !LinkHolds(py, left, ops, comparators, i)
    ensures AsValue(EvalChain(py, ResultOf(py, left).value, ops, comparators, n).result) ==
      ResultOf(py, Binary(LeftOf(left, comparators, i), ops[i], comparators[i]))
    decreases i
  {
    LinkHoldsIff(py, left, ops[0], comparators[0], n);
    if i == 0 {
      FirstLinkDecides(py, left, ops, comparators, n);
    } else {
      assert LinkHolds(py, left, ops, comparators, 0);
      forall j | 0 <= j < |ops[1..]| && j < |comparators[1..]|
        ensures LinkHolds(py, comparators[0], ops[1..], comparators[1..], j) <==>
          LinkHolds(py, left, ops, comparators, j + 1)
      {
        assert LeftOf(comparators[0], comparators[1..], j) == LeftOf(left, comparators, j + 1);
      }
      ChainStopsAt(py, comparators[0], ops[1..], comparators[1..], i - 1, n + 1);
      assert LeftOf(comparators[0], comparators[1..], i - 1) == LeftOf(left, comparators, i);
    }
  }

  lemma FirstLinkDecides(py: Python, left: Node, ops: seq<Operator>, comparators: seq<Node>, n: nat)
    requires Succeeds(py, left) && ops != [] && comparators != [] && !LinkHolds(py, left, ops, comparators, 0)
    ensures AsValue(EvalChain(py, ResultOf(py, left).value, ops, comparators, n).result) ==
      ResultOf(py, Binary(left, ops[0], comparators[0]))
  {
    LinkHoldsIff(py, left, ops[0], comparators[0], n);
    var l, right := ResultOf(py, left).value, comparators[0];
    if Succeeds(py, right) {
      BinaryIs(py, left, ops[0], right);
    } else {
      assert EvalChain(py, l, [ops[0]], [right], 1).result == Failure(ResultOf(py, right).error);
    }
  }

  /** So does the chain as an expression. */
  lemma ChainIsDecidedBy(py: Python, left: Node, ops: seq<Operator>, comparators: seq<Node>, i: nat)
    requires Succeeds(py, left) && i < |ops| && i < |comparators|
    requires (forall j :: 0 <= j < i ==> LinkHolds(py, left, ops, comparators, j))
    requires !LinkHolds(py, left, ops, comparators, i)
    ensures ResultOf(py, Compare(left, ops, comparators)) ==
      ResultOf(py, Binary(LeftOf(left, comparators, i), ops[i], comparators[i]))
  {
    ChainStopsAt(py, left, ops, comparators, i, 1);
  }

  // ----- Truth and containers -----

  /** The values `bool` takes for false. */
  predicate IsEmpty(v: Value)
  {
    || v in {Scalar(NoneLit), Scalar(BoolLit(false)), Scalar(IntLit(0)), Scalar(FloatLit(0.0)), Scalar(StrLit(""))}
    || v in {ListValue([]), TupleValue([]), SetValue([]), DictValue([])}
  }

  /** What `not` makes of each kind of value. */
  lemma NegationOf(py: Python, n: Node)
    requires Succeeds(py, n)
    ensures var v := ResultOf(py, n).value;
      ResultOf(py, Negation(n)) == Success(Boolean(IsEmpty(v)))
  {
  }

  ghost predicate ItemsAre(py: Python, ns: seq<Node>, values: seq<Value>)
  {
    |values| == |ns| && forall i :: 0 <= i < |ns| ==> ResultOf(py, ns[i]) == Success(values[i])
  }

  /** A container literal holds the values of its items in order, unless it has more than 128. */
  lemma ContainersAre(py: Python, ns: seq<Node>, values: seq<Value>)
    requires ItemsAre(py, ns, values)
    ensures ResultOf(py, ListNode(ns)) == if |ns| <= 128 then Success(ListValue(values)) else Failure(TooManyItems)
    ensures ResultOf(py, TupleNode(ns)) == if |ns| <= 128 then Success(TupleValue(values)) else Failure(TooManyItems)
    ensures ResultOf(py, SetNode(ns)) ==
      if |ns| > 128 then Failure(TooManyItems)
      else if forall i :: 0 <= i < |values| ==>
        values[i].Scalar? then Success(SetValue(values)) else Failure(NotHashable)
  {
    AllResult(py, ns, 0);
    forall i | 0 <= i < |ns| ensures Succeeds(py, ns[i]) && ResultOf(py, ns[i]).value == values[i] {
      assert ResultOf(py, ns[i]) == Success(values[i]);
    }
    assert AllSucceed(py, ns);
    var got := EvalAll(py, ns, 0).result;
    assert got.Success? && got.value == values;
    assert ResultOf(py, ListNode(ns)) == EvalItems(py, ListNode(ns), ns).result;
    assert ResultOf(py, TupleNode(ns)) == EvalItems(py, TupleNode(ns), ns).result;
    assert ResultOf(py, SetNode(ns)) == EvalItems(py, SetNode(ns), ns).result;
  }

  ghost predicate EntriesAre(py: Python, keys: seq<Option<Node>>, values: seq<Node>, entries: seq<(Value, Value)>)
  {
    && |entries| == |keys| == |values|
    && forall i :: 0 <= i < |keys| ==>
         EntryIs(py, keys[i], values[i], entries[i])
  }

  ghost predicate EntryIs(py: Python, key: Option<Node>, value: Node, entry: (Value, Value))
  {
    && key.Some? && ResultOf(py, key.value) == Success(entry.0) && entry.0.Scalar?
    && ResultOf(py, value) == Success(entry.1)
  }

  lemma {:induction false} EntriesEvaluate(
      py: Python, keys: seq<Option<Node>>, values: seq<Node>, entries: seq<(Value, Value)>, i: nat)
    requires EntriesAre(py, keys, values, entries)
    ensures EvalDict(py, keys, values, i).result == Success(entries)
    decreases |keys|
  {
    if keys != [] {
      assert EntryIs(py, keys[0], values[0], entries[0]);
      EntriesEvaluate(py, keys[1..], values[1..], entries[1..], i + 2);
      assert entries == [entries[0]] + entries[1..];
    }
  }

  /** A dictionary literal holds its entries in order, unless it has more than 128. */
  lemma DictionariesAre(py: Python, keys: seq<Option<Node>>, values: seq<Node>, entries: seq<(Value, Value)>)
    requires EntriesAre(py, keys, values, entries)
    ensures ResultOf(py, DictNode(keys, values)) ==
      if |keys| <= 128 then Success(DictValue(entries)) else Failure(TooManyItems)
  {
    EntriesEvaluate(py, keys, values, entries, 0);
  }

  /** The operators the validator lets through are those the evaluator knows. */
  lemma OperatorsKnown(py: Python, op: Operator)
    ensures CompareOperator(op) <==>
      Compared(py, op, Scalar(StrLit("")), Scalar(StrLit(""))) != Failure(Unsupported)
    ensures BoolOperator(op) <==> Combine(op, []).Success?
  {
  }
}
