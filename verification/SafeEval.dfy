/**
  Branch expressions after parsing (eap/environment/safe_eval.py): the counting validator and the
  language it admits.
 */
module SafeEval {
  import opened Wrappers

  const MaxNodes: nat := 256

  /** Literals the language allows, and the ones it does not (bytes, complex, ellipsis). */
  datatype Literal = NoneLit | BoolLit(b: bool) | IntLit(n: int) | FloatLit(x: real) | StrLit(s: string) | OddLit

  datatype Operator = And | Or | Not | Eq | NotEq | Lt | LtE | Gt | GtE | In | NotIn | Is | IsNot | OddOperator

  /** `Odd` stands for every construct outside the language, with its child nodes. */
  datatype Node =
    | Constant(literal: Literal)
    | ListNode(items: seq<Node>)
    | TupleNode(items: seq<Node>)
    | SetNode(items: seq<Node>)
    | DictNode(keys: seq<Option<Node>>, values: seq<Node>)
    | BoolOp(op: Operator, operands: seq<Node>)
    | UnaryOp(op: Operator, operand: Node)
    | Compare(left: Node, ops: seq<Operator>, comparators: seq<Node>)
    | Odd(children: seq<Node>)

  datatype Error =
    | TooComplex
    | Unsupported
    | TooManyItems
    | NotHashable
    | NotOrdered
    | NotContainer
    | TypeFault
    | NotBoolean

  // ----- The language -----

  predicate BoolOperator(op: Operator) { op.And? || op.Or? }

  predicate CompareOperator(op: Operator) { !(op.And? || op.Or? || op.Not? || op.OddOperator?) }

  /** Inside the language. */
  predicate Allowed(n: Node)
  {
    match n
    case Constant(literal) => !literal.OddLit?
    case ListNode(items) => AllAllowed(items)
    case TupleNode(items) => AllAllowed(items)
    case SetNode(items) => AllAllowed(items)
    case DictNode(keys, values) => AllKeysAllowed(keys) && AllAllowed(values)
    case BoolOp(op, operands) => BoolOperator(op) && AllAllowed(operands)
    case UnaryOp(op, operand) => op.Not? && Allowed(operand)
    case Compare(left, ops, comparators) =>
      (forall i :: 0 <= i < |ops| ==> CompareOperator(ops[i])) && Allowed(left) && AllAllowed(comparators)
    case Odd(_) => false
  }

  predicate AllAllowed(ns: seq<Node>) { forall i :: 0 <= i < |ns| ==> Allowed(ns[i]) }

  predicate AllKeysAllowed(ks: seq<Option<Node>>) { forall i :: 0 <= i < |ks| ==> KeyAllowed(ks[i]) }

  /** A missing key is `**` unpacking. */
  predicate KeyAllowed(k: Option<Node>)
  {
    match k
    case None => false
    case Some(n) => Allowed(n)
  }

  /** AST nodes in all: operators and the load context of lists and tuples are nodes too. */
  function Size(n: Node): (size: nat)
    ensures size >= 1
  {
    match n
    case Constant(_) => 1
    case ListNode(items) => 2 + SizeAll(items)
    case TupleNode(items) => 2 + SizeAll(items)
    case SetNode(items) => 1 + SizeAll(items)
    case DictNode(keys, values) => 1 + SizeKeys(keys) + SizeAll(values)
    case BoolOp(_, operands) => 2 + SizeAll(operands)
    case UnaryOp(_, operand) => 2 + Size(operand)
    case Compare(left, ops, comparators) => 1 + Size(left) + |ops| + SizeAll(comparators)
    case Odd(children) => 1 + SizeAll(children)
  }

  function SizeAll(ns: seq<Node>): nat { if ns == [] then 0 else Size(ns[0]) + SizeAll(ns[1..]) }

  function SizeKeys(ks: seq<Option<Node>>): nat { if ks == [] then 0 else SizeKey(ks[0]) + SizeKeys(ks[1..]) }

  function SizeKey(k: Option<Node>): nat
  {
    match k
    case None => 0
    case Some(n) => Size(n)
  }

  // ----- The validator -----

  /** An outcome that tells the truth about a visit which counted from `before` to `after`. */
  ghost predicate Judged(before: nat, after: nat, max: nat, allowed: bool, size: nat, r: Option<Error>)
  {
    && (r.None? ==> allowed && after == before + size <= max)
    && (r.Some? ==> (r.value == Unsupported && !allowed) || (r.value == TooComplex && before + size > max))
  }

  class SafeExpressionValidator {
    const maxNodes: nat
    var nodeCount: nat

    constructor (maxNodes: nat)
      ensures this.maxNodes == maxNodes && nodeCount == 0
    {
      this.maxNodes := maxNodes;
      nodeCount := 0;
    }

    method CountNode() returns (r: Option<Error>)
      modifies this
      ensures nodeCount == old(nodeCount) + 1
      ensures r == if nodeCount > maxNodes then Some(TooComplex) else None
    {
      nodeCount := nodeCount + 1;
      r := if nodeCount > maxNodes then Some(TooComplex) else None;
    }

    /** Visits nodes that hold no others: operators and load contexts. */
    method VisitLeaves(n: nat) returns (r: Option<Error>)
      requires nodeCount <= maxNodes
      modifies this
      ensures Judged(old(nodeCount), nodeCount, maxNodes, true, n, r)
    {
      r := None;
      for k := 0 to n
        invariant r.None? && nodeCount == old(nodeCount) + k <= maxNodes
      {
        r := CountNode();
        if r.Some? {
          return;
        }
      }
    }

    method VisitAll(ns: seq<Node>) returns (r: Option<Error>)
      requires nodeCount <= maxNodes
      modifies this
      ensures Judged(old(nodeCount), nodeCount, maxNodes, AllAllowed(ns), SizeAll(ns), r)
      decreases SizeAll(ns), 1
    {
      r := None;
      for k := 0 to |ns|
        invariant r.None? && AllAllowed(ns[..k])
        invariant nodeCount <= maxNodes && nodeCount + SizeAll(ns[k..]) == old(nodeCount) + SizeAll(ns)
      {
        SizeOfSuffix(ns, k);
        r := Visit(ns[k]);
        if r.Some? {
          return;
        }
      }
      assert ns[..|ns|] == ns;
    }

    method VisitKeys(ks: seq<Option<Node>>) returns (r: Option<Error>)
      requires nodeCount <= maxNodes && forall i :: 0 <= i < |ks| ==> ks[i].Some?
      modifies this
      ensures Judged(old(nodeCount), nodeCount, maxNodes, AllKeysAllowed(ks), SizeKeys(ks), r)
      decreases SizeKeys(ks), 1
    {
      r := None;
      for k := 0 to |ks|
        invariant r.None? && AllKeysAllowed(ks[..k])
        invariant nodeCount <= maxNodes && nodeCount + SizeKeys(ks[k..]) == old(nodeCount) + SizeKeys(ks)
      {
        SizeOfKeySuffix(ks, k);
        r := Visit(ks[k].value);
        if r.Some? {
          return;
        }
      }
      assert ks[..|ks|] == ks;
    }

    /** A node's own checks; its children come after. */
    method Inspect(n: Node) returns (r: Option<Error>)
      ensures r.Some? ==> r.value == Unsupported && !Allowed(n)
      ensures r.None? ==> !n.Odd? && (n.Constant? ==> Allowed(n)) && (n.BoolOp? ==> BoolOperator(n.op))
      ensures r.None? && n.UnaryOp? ==> n.op.Not?
      ensures r.None? && n.Compare? ==> forall i :: 0 <= i < |n.ops| ==> CompareOperator(n.ops[i])
      ensures r.None? ==> n.DictNode? ==> forall i :: 0 <= i < |n.keys| ==> n.keys[i].Some?
    {
      var bad :=
        match n
        case Constant(literal) => literal.OddLit?
        case ListNode(_) => false
        case TupleNode(_) => false
        case SetNode(_) => false
        case DictNode(keys, _) => exists i :: 0 <= i < |keys| && keys[i].None?
        case BoolOp(op, _) => !BoolOperator(op)
        case UnaryOp(op, _) => !op.Not?
        case Compare(_, ops, _) => exists i :: 0 <= i < |ops| && !CompareOperator(ops[i])
        case Odd(_) => true;
      if bad && n.DictNode? {
        ghost var i :| 0 <= i < |n.keys| && n.keys[i].None?;
        assert !KeyAllowed(n.keys[i]);
      }
      r := if bad then Some(Unsupported) else None;
    }

    /** Accepts exactly the allowed trees that fit in what is left of the node budget. */
    method Visit(n: Node) returns (r: Option<Error>)
      requires nodeCount <= maxNodes
      modifies this
      ensures Judged(old(nodeCount), nodeCount, maxNodes, Allowed(n), Size(n), r)
      decreases Size(n), 0
    {
      r := CountNode();
      if r.Some? {
        return;
      }
      r := Inspect(n);
      if r.Some? || n.Constant? {
        return;
      }
      if n.DictNode? {
        r := VisitKeys(n.keys);
        if r.None? {
          r := VisitAll(n.values);
        }
      } else if n.Compare? {
        r := Visit(n.left);
        if r.None? {
          r := VisitLeaves(|n.ops|);
        }
        if r.None? {
          r := VisitAll(n.comparators);
        }
      } else if n.UnaryOp? {
        r := VisitLeaves(1);
        if r.None? {
          r := Visit(n.operand);
        }
      } else if n.BoolOp? {
        r := VisitLeaves(1);
        if r.None? {
          r := VisitAll(n.operands);
        }
      } else {
        r := VisitAll(n.items);
        if r.None? && !n.SetNode? {
          r := VisitLeaves(1);
        }
      }
    }
  }

  lemma {:induction false} SizeOfSuffix(ns: seq<Node>, k: nat)
    requires k < |ns|
    ensures SizeAll(ns[k..]) == Size(ns[k]) + SizeAll(ns[k + 1..]) && Size(ns[k]) <= SizeAll(ns)
  {
    assert ns[k..][0] == ns[k] && ns[k..][1..] == ns[k + 1..];
    if k > 0 {
      SizeOfSuffix(ns[1..], k - 1);
    }
  }

  lemma {:induction false} SizeOfKeySuffix(ks: seq<Option<Node>>, k: nat)
    requires k < |ks|
    ensures SizeKeys(ks[k..]) == SizeKey(ks[k]) + SizeKeys(ks[k + 1..]) && SizeKey(ks[k]) <= SizeKeys(ks)
  {
    assert ks[k..][0] == ks[k] && ks[k..][1..] == ks[k + 1..];
    if k > 0 {
      SizeOfKeySuffix(ks[1..], k - 1);
    }
  }
}
