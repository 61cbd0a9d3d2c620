/**
  The evaluator of branch expressions. Equality, identity and membership are Python's and
  are taken as given; sets and dictionaries keep their items as listed.
 */
module Evaluation {
  import opened Wrappers
  import opened SafeEval
  import opened Sorting
  import Text

  const MaxItems: nat := 128

  datatype Value =
    | Scalar(literal: Literal)
    | ListValue(items: seq<Value>)
    | TupleValue(items: seq<Value>)
    | SetValue(items: seq<Value>)
    | DictValue(entries: seq<(Value, Value)>)

  /** `==`, `is` and `in` on values; a membership test may raise TypeError. */
  datatype Python = Python(
    equal: (Value, Value) -> bool, same: (Value, Value) -> bool, contains: (Value, Value) -> Option<bool>)

  /** Where a node sits below the one being evaluated. */
  type Path = seq<nat>

  /** The result, and the nodes evaluated on the way, in order. */
  datatype Outcome<+T> = Outcome(result: Result<T, Error>, visited: seq<Path>)

  function Below(i: nat, paths: seq<Path>): seq<Path>
  {
    seq(|paths|, j requires 0 <= j < |paths| => [i] + paths[j])
  }

  function Boolean(b: bool): Value { Scalar(BoolLit(b)) }

  /** `bool(value)` */
  function Truth(v: Value): bool
  {
    match v
    case Scalar(NoneLit) => false
    case Scalar(BoolLit(b)) => b
    case Scalar(IntLit(n)) => n != 0
    case Scalar(FloatLit(x)) => x != 0.0
    case Scalar(StrLit(s)) => s != ""
    case Scalar(OddLit) => true
    case ListValue(items) => items != []
    case TupleValue(items) => items != []
    case SetValue(items) => items != []
    case DictValue(entries) => entries != []
  }

  // ----- Comparisons -----

  predicate SameType(a: Literal, b: Literal)
  {
    (a.BoolLit? && b.BoolLit?) || (a.IntLit? && b.IntLit?) || (a.FloatLit? && b.FloatLit?) || (a.StrLit? && b.StrLit?)
  }

  predicate LiteralLess(a: Literal, b: Literal)
    requires SameType(a, b)
  {
    match a
    case BoolLit(p) => !p && b.b
    case IntLit(m) => m < b.n
    case FloatLit(x) => x < b.x
    case StrLit(s) => Text.Less(s, b.s)
  }

  function Ordered(op: Operator, left: Value, right: Value): Result<bool, Error>
  {
    if !(left.Scalar? && right.Scalar? && SameType(left.literal, right.literal)) then Failure(NotOrdered)
    else
      var a, b := left.literal, right.literal;
      match op
      case Lt => Success(LiteralLess(a, b))
      case LtE => Success(a == b || LiteralLess(a, b))
      case Gt => Success(LiteralLess(b, a))
      case GtE => Success(a == b || LiteralLess(b, a))
      case _ => Failure(Unsupported)
  }

  function Membership(py: Python, op: Operator, left: Value, right: Value): Result<bool, Error>
  {
    if right.Scalar? && !right.literal.StrLit? then Failure(NotContainer)
    else if !(op.In? || op.NotIn?) then Failure(Unsupported)
    else
      match py.contains(left, right)
      case None => Failure(TypeFault)
      case Some(found) => Success(if op.In? then found else !found)
  }

  function Compared(py: Python, op: Operator, left: Value, right: Value): Result<bool, Error>
  {
    if op.Eq? then Success(py.equal(left, right))
    else if op.NotEq? then Success(!py.equal(left, right))
    else if op.Lt? || op.LtE? || op.Gt? || op.GtE? then Ordered(op, left, right)
    else if op.In? || op.NotIn? then Membership(py, op, left, right)
    else if op.Is? then Success(py.same(left, right))
    else if op.IsNot? then Success(!py.same(left, right))
    else Failure(Unsupported)
  }

  // ----- Evaluation -----

  function Combine(op: Operator, values: seq<Value>): Result<Value, Error>
  {
    if op.And? then Success(Boolean(forall i :: 0 <= i < |values| ==> Truth(values[i])))
    else if op.Or? then Success(Boolean(exists i :: 0 <= i < |values| && Truth(values[i])))
    else Failure(Unsupported)
  }

  function Gather(n: Node, values: seq<Value>): Result<Value, Error>
    requires n.ListNode? || n.TupleNode? || n.SetNode?
  {
    if n.ListNode? then Success(ListValue(values))
    else if n.TupleNode? then Success(TupleValue(values))
    else if forall i :: 0 <= i < |values| ==> values[i].Scalar? then Success(SetValue(values))
    else Failure(NotHashable)
  }

  function Eval(py: Python, n: Node): Outcome<Value>
    decreases Size(n), 0
  {
    match n
    case Constant(literal) => Outcome(if literal.OddLit? then Failure(Unsupported) else Success(Scalar(literal)), [[]])
    case DictNode(keys, values) =>
      if |keys| > MaxItems then Outcome(Failure(TooManyItems), [[]])
      else
        var o := EvalDict(py, keys, values, 0);
        Outcome(if o.result.Failure? then Failure(o.result.error) else Success(DictValue(o.result.value)),
                [[]] + o.visited)
    case BoolOp(op, operands) =>
      var o := EvalAll(py, operands, 0);
      Outcome(if o.result.Failure? then Failure(o.result.error) else Combine(op, o.result.value), [[]] + o.visited)
    case UnaryOp(op, operand) =>
      if !op.Not? then Outcome(Failure(Unsupported), [[]])
      else
        var o := Eval(py, operand);
        Outcome(if o.result.Failure? then o.result else Success(Boolean(!Truth(o.result.value))),
                [[]] + Below(0, o.visited))
    case Compare(left, ops, comparators) =>
      var l := Eval(py, left);
      if l.result.Failure? then Outcome(l.result, [[]] + Below(0, l.visited))
      else
        var o := EvalChain(py, l.result.value, ops, comparators, 1);
        Outcome(if o.result.Failure? then Failure(o.result.error) else Success(Boolean(o.result.value)),
                [[]] + Below(0, l.visited) + o.visited)
    case Odd(_) => Outcome(Failure(Unsupported), [[]])
    case ListNode(items) => EvalItems(py, n, items)
    case TupleNode(items) => EvalItems(py, n, items)
    case SetNode(items) => EvalItems(py, n, items)
  }

  function EvalItems(py: Python, n: Node, items: seq<Node>): Outcome<Value>
    requires n.ListNode? || n.TupleNode? || n.SetNode?
    decreases SizeAll(items), |items| + 2
  {
    if |items| > MaxItems then Outcome(Failure(TooManyItems), [[]])
    else
      var o := EvalAll(py, items, 0);
      Outcome(if o.result.Failure? then Failure(o.result.error) else Gather(n, o.result.value), [[]] + o.visited)
  }

  /** Every one of the nodes, left to right, up to the first failure. */
  function EvalAll(py: Python, ns: seq<Node>, i: nat): Outcome<seq<Value>>
    decreases SizeAll(ns), |ns| + 1
  {
    if ns == [] then Outcome(Success([]), [])
    else
      var head := Eval(py, ns[0]);
      if head.result.Failure? then Outcome(Failure(head.result.error), Below(i, head.visited))
      else
        var tail := EvalAll(py, ns[1..], i + 1);
        Outcome(if tail.result.Failure? then tail.result else Success([head.result.value] + tail.result.value),
                Below(i, head.visited) + tail.visited)
  }

  /** A key, then its value. */
  function EvalEntry(py: Python, key: Option<Node>, value: Node, i: nat): Outcome<(Value, Value)>
    decreases SizeKey(key) + Size(value), 0
  {
    if key.None? then Outcome(Failure(Unsupported), [])
    else
      assert SizeKey(key) == Size(key.value);
      var k := Eval(py, key.value);
      if k.result.Failure? then Outcome(Failure(k.result.error), Below(i, k.visited))
      else if !k.result.value.Scalar? then Outcome(Failure(NotHashable), Below(i, k.visited))
      else
        var v := Eval(py, value);
        Outcome(if v.result.Failure? then Failure(v.result.error) else Success((k.result.value, v.result.value)),
                Below(i, k.visited) + Below(i + 1, v.visited))
  }

  /** Entry by entry. */
  function EvalDict(py: Python, keys: seq<Option<Node>>, values: seq<Node>, i: nat): Outcome<seq<(Value, Value)>>
    decreases SizeKeys(keys) + SizeAll(values), |keys| + 1
  {
    if keys == [] || values == [] then Outcome(Success([]), [])
    else
      var e := EvalEntry(py, keys[0], values[0], i);
      if e.result.Failure? then Outcome(Failure(e.result.error), e.visited)
      else
        var tail := EvalDict(py, keys[1..], values[1..], i + 2);
        Outcome(if tail.result.Failure? then tail.result else Success([e.result.value] + tail.result.value),
                e.visited + tail.visited)
  }

  function Link(py: Python, left: Value, op: Operator, right: Result<Value, Error>): Result<(bool, Value), Error>
  {
    if right.Failure? then Failure(right.error)
    else
      var c := Compared(py, op, left, right.value);
      if c.Failure? then Failure(c.error) else Success((c.value, right.value))
  }

  /** One comparison: whether it holds, and the operand that is the next one's left side. */
  function EvalLink(py: Python, left: Value, op: Operator, comparator: Node, i: nat): Outcome<(bool, Value)>
    decreases Size(comparator), 1
  {
    var right := Eval(py, comparator);
    Outcome(Link(py, left, op, right.result), Below(i, right.visited))
  }

  /** A chain of comparisons stops at the first that does not hold. */
  function EvalChain(py: Python, left: Value, ops: seq<Operator>, comparators: seq<Node>, i: nat): Outcome<bool>
    decreases SizeAll(comparators), |comparators| + 1
  {
    if ops == [] || comparators == [] then Outcome(Success(true), [])
    else
      var link := EvalLink(py, left, ops[0], comparators[0], i);
      if link.result.Failure? then Outcome(Failure(link.result.error), link.visited)
      else if !link.result.value.0 then Outcome(Success(false), link.visited)
      else
        var tail := EvalChain(py, link.result.value.1, ops[1..], comparators[1..], i + 1);
        Outcome(tail.result, link.visited + tail.visited)
  }

  // ----- Accepted expressions never reach an "unsupported" raise -----

  /** A failure, if any, is about the values met, not about the form of the expression. */
  predicate FailsOnDataOnly<T>(r: Result<T, Error>)
  {
    r.Failure? ==> r.error !in {Unsupported, TooComplex, NotBoolean}
  }

  lemma {:induction false} NoUnsupported(py: Python, n: Node)
    requires Allowed(n)
    ensures FailsOnDataOnly(Eval(py, n).result)
    decreases Size(n), 0
  {
    match n
    case Constant(_) =>
    case DictNode(keys, values) =>
      if |keys| <= MaxItems { DictSupported(py, keys, values, 0); }
    case BoolOp(_, operands) => AllSupported(py, operands, 0);
    case UnaryOp(_, operand) => NoUnsupported(py, operand);
    case Compare(left, ops, comparators) =>
      NoUnsupported(py, left);
      var l := Eval(py, left).result;
      if l.Success? { ChainSupported(py, l.value, ops, comparators, 1); }
    case ListNode(items) => AllSupported(py, items, 0);
    case TupleNode(items) => AllSupported(py, items, 0);
    case SetNode(items) => AllSupported(py, items, 0);
  }

  lemma {:induction false} AllSupported(py: Python, ns: seq<Node>, i: nat)
    requires AllAllowed(ns)
    ensures FailsOnDataOnly(EvalAll(py, ns, i).result)
    decreases SizeAll(ns), |ns| + 1
  {
    if ns != [] {
      NoUnsupported(py, ns[0]);
      AllSupported(py, ns[1..], i + 1);
    }
  }

  lemma {:induction false} DictSupported(py: Python, keys: seq<Option<Node>>, values: seq<Node>, i: nat)
    requires AllKeysAllowed(keys) && AllAllowed(values)
    ensures FailsOnDataOnly(EvalDict(py, keys, values, i).result)
    decreases SizeKeys(keys) + SizeAll(values), |keys| + 1
  {
    if keys != [] && values != [] {
      assert KeyAllowed(keys[0]) && SizeKey(keys[0]) == Size(keys[0].value);
      NoUnsupported(py, keys[0].value);
      NoUnsupported(py, values[0]);
      DictSupported(py, keys[1..], values[1..], i + 2);
    }
  }

  lemma {:induction false} ChainSupported(py: Python, left: Value, ops: seq<Operator>, comparators: seq<Node>, i: nat)
    requires AllAllowed(comparators) && forall j :: 0 <= j < |ops| ==> CompareOperator(ops[j])
    ensures FailsOnDataOnly(EvalChain(py, left, ops, comparators, i).result)
    decreases SizeAll(comparators), |comparators| + 1
  {
    if ops != [] && comparators != [] {
      NoUnsupported(py, comparators[0]);
      var right := Eval(py, comparators[0]).result;
      if right.Success? {
        assert CompareOperator(ops[0]);
        ChainSupported(py, right.value, ops[1..], comparators[1..], i + 1);
      }
    }
  }

  // ----- Each node is evaluated at most once -----

  /** Distinct positions, all of them in the children numbered `i` and up. */
  ghost predicate Once(v: seq<Path>, i: nat)
  {
    Distinct(v) && forall j :: 0 <= j < |v| ==> v[j] != [] && v[j][0] >= i
  }

  lemma JoinOnce(i: nat, a: seq<Path>, b: seq<Path>)
    requires Distinct(a) && Once(b, i + 1)
    ensures Once(Below(i, a) + b, i)
  {
    var v := Below(i, a) + b;
    forall j, k | 0 <= j < k < |v| ensures v[j] != v[k] {
      if k < |a| {
        assert v[j][1..] == a[j] && v[k][1..] == a[k];
      } else if j < |a| {
        assert v[j][0] == i && v[k] == b[k - |a|];
      }
    }
  }

  lemma EntryOnce(i: nat, k: seq<Path>, v: seq<Path>, tail: seq<Path>)
    requires Distinct(k) && Distinct(v) && Once(tail, i + 2)
    ensures Once(Below(i, k), i) && Once(Below(i, k) + Below(i + 1, v), i)
    ensures Once(Below(i, k) + Below(i + 1, v) + tail, i)
  {
    assert Below(i, k) + [] == Below(i, k) && Below(i + 1, v) + [] == Below(i + 1, v);
    JoinOnce(i, k, []);
    JoinOnce(i + 1, v, []);
    JoinOnce(i, k, Below(i + 1, v));
    JoinOnce(i + 1, v, tail);
    JoinOnce(i, k, Below(i + 1, v) + tail);
    assert Below(i, k) + Below(i + 1, v) + tail == Below(i, k) + (Below(i + 1, v) + tail);
  }

  lemma RootOnce(v: seq<Path>)
    requires Once(v, 0)
    ensures Distinct([[]] + v)
  {
  }

  /** No node is evaluated twice, so there are at most as many evaluations as nodes. */
  lemma {:induction false} EachNodeOnce(py: Python, n: Node)
    ensures Distinct(Eval(py, n).visited) && |Eval(py, n).visited| <= Size(n)
    decreases Size(n), 0
  {
    match n
    case Constant(_) =>
    case Odd(_) =>
    case DictNode(keys, values) =>
      DictOnce(py, keys, values, 0);
      RootOnce(EvalDict(py, keys, values, 0).visited);
    case BoolOp(_, operands) =>
      AllOnce(py, operands, 0);
      RootOnce(EvalAll(py, operands, 0).visited);
    case UnaryOp(_, operand) =>
      EachNodeOnce(py, operand);
      var v := Eval(py, operand).visited;
      JoinOnce(0, v, []);
      assert Below(0, v) + [] == Below(0, v);
      RootOnce(Below(0, v));
    case Compare(left, ops, comparators) => CompareOnce(py, n);
    case ListNode(items) => ItemsOnce(py, items);
    case TupleNode(items) => ItemsOnce(py, items);
    case SetNode(items) => ItemsOnce(py, items);
  }

  lemma {:induction false} ItemsOnce(py: Python, items: seq<Node>)
    ensures Distinct([[]] + EvalAll(py, items, 0).visited) && |EvalAll(py, items, 0).visited| <= SizeAll(items)
    decreases SizeAll(items), |items| + 2
  {
    AllOnce(py, items, 0);
    RootOnce(EvalAll(py, items, 0).visited);
  }

  lemma {:induction false} CompareOnce(py: Python, n: Node)
    requires n.Compare?
    ensures Distinct(Eval(py, n).visited) && |Eval(py, n).visited| <= Size(n)
    decreases Size(n), 0, 0
  {
    EachNodeOnce(py, n.left);
    var l := Eval(py, n.left);
    if l.result.Failure? {
      NodeOnce(l.visited, []);
      assert [[]] + Below(0, l.visited) + [] == [[]] + Below(0, l.visited);
    } else {
      ChainOnce(py, l.result.value, n.ops, n.comparators, 1);
      NodeOnce(l.visited, EvalChain(py, l.result.value, n.ops, n.comparators, 1).visited);
    }
  }

  /** A node, its first child and its other children. */
  lemma NodeOnce(a: seq<Path>, b: seq<Path>)
    requires Distinct(a) && Once(b, 1)
    ensures Distinct([[]] + Below(0, a) + b)
  {
    JoinOnce(0, a, b);
    RootOnce(Below(0, a) + b);
    assert [[]] + Below(0, a) + b == [[]] + (Below(0, a) + b);
  }

  lemma {:induction false} AllOnce(py: Python, ns: seq<Node>, i: nat)
    ensures Once(EvalAll(py, ns, i).visited, i) && |EvalAll(py, ns, i).visited| <= SizeAll(ns)
    decreases SizeAll(ns), |ns| + 1
  {
    if ns != [] {
      var head := Eval(py, ns[0]);
      EachNodeOnce(py, ns[0]);
      AllOnce(py, ns[1..], i + 1);
      JoinOnce(i, head.visited, if head.result.Failure? then [] else EvalAll(py, ns[1..], i + 1).visited);
      assert Below(i, head.visited) + [] == Below(i, head.visited);
    }
  }

  lemma {:induction false} DictOnce(py: Python, keys: seq<Option<Node>>, values: seq<Node>, i: nat)
    ensures Once(EvalDict(py, keys, values, i).visited, i)
    ensures |EvalDict(py, keys, values, i).visited| <= SizeKeys(keys) + SizeAll(values)
    decreases SizeKeys(keys) + SizeAll(values), |keys| + 1
  {
    if keys != [] && values != [] && keys[0].Some? {
      assert SizeKey(keys[0]) == Size(keys[0].value);
      var k, v := Eval(py, keys[0].value), Eval(py, values[0]);
      var tail := EvalDict(py, keys[1..], values[1..], i + 2).visited;
      EachNodeOnce(py, keys[0].value);
      EachNodeOnce(py, values[0]);
      DictOnce(py, keys[1..], values[1..], i + 2);
      EntryOnce(i, k.visited, v.visited, tail);
    }
  }

  lemma {:induction false} ChainOnce(py: Python, left: Value, ops: seq<Operator>, comparators: seq<Node>, i: nat)
    ensures Once(EvalChain(py, left, ops, comparators, i).visited, i)
    ensures |EvalChain(py, left, ops, comparators, i).visited| <= SizeAll(comparators)
    decreases SizeAll(comparators), |comparators| + 1
  {
    if ops != [] && comparators != [] {
      var right := Eval(py, comparators[0]);
      EachNodeOnce(py, comparators[0]);
      JoinOnce(i, right.visited, []);
      assert Below(i, right.visited) + [] == Below(i, right.visited);
      if right.result.Success? {
        ChainOnce(py, right.result.value, ops[1..], comparators[1..], i + 1);
        JoinOnce(i, right.visited, EvalChain(py, right.result.value, ops[1..], comparators[1..], i + 1).visited);
      }
    }
  }

  // ----- What is evaluated is part of the expression -----

  /** Child `i` in the numbering of paths: keys and values of a dictionary take turns. */
  function Child(n: Node, i: nat): Option<Node>
  {
    match n
    case Constant(_) => None
    case ListNode(items) => Item(items, i)
    case TupleNode(items) => Item(items, i)
    case SetNode(items) => Item(items, i)
    case DictNode(keys, values) => EntryPart(keys, values, i)
    case BoolOp(_, operands) => Item(operands, i)
    case UnaryOp(_, operand) => if i == 0 then Some(operand) else None
    case Compare(left, _, comparators) => if i == 0 then Some(left) else Item(comparators, i - 1)
    case Odd(_) => None
  }

  function Item(ns: seq<Node>, i: nat): Option<Node> { if i < |ns| then Some(ns[i]) else None }

  function EntryPart(keys: seq<Option<Node>>, values: seq<Node>, i: nat): Option<Node>
  {
    if i % 2 == 1 then Item(values, i / 2) else if i / 2 < |keys| then keys[i / 2] else None
  }

  /** The path leads to a node of the tree. */
  predicate IsPosition(n: Node, path: Path)
    decreases |path|
  {
    path == [] || (Child(n, path[0]).Some? && IsPosition(Child(n, path[0]).value, path[1..]))
  }

  /** The path leads into one of the nodes, which are numbered from `i`. */
  ghost predicate LeadsInto(ns: seq<Node>, i: nat, path: Path)
  {
    path != [] && path[0] >= i && Item(ns, path[0] - i).Some? && IsPosition(Item(ns, path[0] - i).value, path[1..])
  }

  ghost predicate LeadsIntoEntry(keys: seq<Option<Node>>, values: seq<Node>, i: nat, path: Path)
  {
    && path != [] && path[0] >= i && EntryPart(keys, values, path[0] - i).Some?
    && IsPosition(EntryPart(keys, values, path[0] - i).value, path[1..])
  }

  lemma BelowMember(i: nat, v: seq<Path>, path: Path)
    requires path in Below(i, v)
    ensures path != [] && path[0] == i && path[1..] in v
  {
    var j :| 0 <= j < |v| && Below(i, v)[j] == path;
    assert path[1..] == v[j];
  }

  lemma {:induction false} VisitedArePositions(py: Python, n: Node, path: Path)
    requires path in Eval(py, n).visited
    ensures IsPosition(n, path)
    decreases Size(n), 0
  {
    if path != [] {
      match n
      case DictNode(keys, values) => EntriesVisited(py, keys, values, 0, path);
      case BoolOp(_, operands) => ItemsVisited(py, operands, 0, path);
      case UnaryOp(_, operand) =>
        BelowMember(0, Eval(py, operand).visited, path);
        VisitedArePositions(py, operand, path[1..]);
      case Compare(_, _, _) => CompareVisited(py, n, path);
      case ListNode(items) => ItemsVisited(py, items, 0, path);
      case TupleNode(items) => ItemsVisited(py, items, 0, path);
      case SetNode(items) => ItemsVisited(py, items, 0, path);
    }
  }

  lemma {:induction false} CompareVisited(py: Python, n: Node, path: Path)
    requires n.Compare? && path != [] && path in Eval(py, n).visited
    ensures IsPosition(n, path)
    decreases Size(n), 0, 0
  {
    var l := Eval(py, n.left);
    if path in Below(0, l.visited) {
      BelowMember(0, l.visited, path);
      VisitedArePositions(py, n.left, path[1..]);
    } else {
      ChainVisited(py, l.result.value, n.ops, n.comparators, 1, path);
    }
  }

  lemma {:induction false} ItemsVisited(py: Python, ns: seq<Node>, i: nat, path: Path)
    requires path in EvalAll(py, ns, i).visited
    ensures LeadsInto(ns, i, path)
    decreases SizeAll(ns), |ns| + 1
  {
    var head := Eval(py, ns[0]);
    if path in Below(i, head.visited) {
      BelowMember(i, head.visited, path);
      VisitedArePositions(py, ns[0], path[1..]);
    } else {
      ItemsVisited(py, ns[1..], i + 1, path);
    }
  }

  lemma {:induction false} EntriesVisited(py: Python, keys: seq<Option<Node>>, values: seq<Node>, i: nat, path: Path)
    requires path in EvalDict(py, keys, values, i).visited
    ensures LeadsIntoEntry(keys, values, i, path)
    decreases SizeKeys(keys) + SizeAll(values), |keys| + 1
  {
    assert SizeKey(keys[0]) == Size(keys[0].value);
    var k, v := Eval(py, keys[0].value), Eval(py, values[0]);
    if path in Below(i, k.visited) {
      BelowMember(i, k.visited, path);
      VisitedArePositions(py, keys[0].value, path[1..]);
    } else if path in Below(i + 1, v.visited) {
      BelowMember(i + 1, v.visited, path);
      VisitedArePositions(py, values[0], path[1..]);
    } else {
      EntriesVisited(py, keys[1..], values[1..], i + 2, path);
      EntryShift(keys, values, path[0] - i - 2);
    }
  }

  lemma EntryShift(keys: seq<Option<Node>>, values: seq<Node>, d: nat)
    requires keys != [] && values != []
    ensures EntryPart(keys[1..], values[1..], d) == EntryPart(keys, values, d + 2)
  {
  }

  lemma {:induction false} ChainVisited(
      py: Python, left: Value, ops: seq<Operator>, comparators: seq<Node>, i: nat, path: Path)
    requires path in EvalChain(py, left, ops, comparators, i).visited
    ensures LeadsInto(comparators, i, path)
    decreases SizeAll(comparators), |comparators| + 1
  {
    var right := Eval(py, comparators[0]);
    if path in Below(i, right.visited) {
      BelowMember(i, right.visited, path);
      VisitedArePositions(py, comparators[0], path[1..]);
    } else {
      ChainVisited(py, right.result.value, ops[1..], comparators[1..], i + 1, path);
    }
  }
}
