/** Sorting by a strict total order, and the uniqueness of the sorted arrangement. */
module Sorting {

  ghost predicate StrictTotalOrder<T(!new)>(less: (T, T) -> bool)
  {
    && (forall x :: !less(x, x))
    && (forall x, y, z :: less(x, y) && less(y, z) ==> less(x, z))
    && (forall x, y :: x == y || less(x, y) || less(y, x))
  }

  ghost predicate StrictOrder<T(!new)>(less: (T, T) -> bool)
  {
    (forall x :: !less(x, x)) && (forall x, y, z :: less(x, y) && less(y, z) ==> less(x, z))
  }

  ghost predicate Comparable<T>(s: seq<T>, less: (T, T) -> bool)
  {
    forall i, j :: 0 <= i < j < |s| ==> less(s[i], s[j]) || less(s[j], s[i])
  }

  /** Strictly increasing, hence without duplicates. */
  ghost predicate Sorted<T>(s: seq<T>, less: (T, T) -> bool)
  {
    forall i, j :: 0 <= i < j < |s| ==> less(s[i], s[j])
  }

  ghost function Elements<T>(s: seq<T>): set<T>
  {
    set x | x in s
  }

  lemma NoElements<T>(s: seq<T>)
    ensures Elements(s) == {} <==> s == []
  {
    assert s != [] ==> s[0] in Elements(s);
  }

  ghost predicate Distinct<T>(s: seq<T>)
  {
    forall i, j :: 0 <= i < j < |s| ==> s[i] != s[j]
  }

  lemma {:induction false} DistinctCount<T>(s: seq<T>)
    ensures |Elements(s)| <= |s|
    ensures |Elements(s)| == |s| <==> Distinct(s)
  {
    if s != [] {
      DistinctCount(s[1..]);
      assert Elements(s) == {s[0]} + Elements(s[1..]);
      if s[0] in s[1..] {
        var j :| 0 <= j < |s[1..]| && s[1..][j] == s[0];
        assert s[j + 1] == s[0] && Elements(s) == Elements(s[1..]);
      } else {
        assert Distinct(s[1..]) ==> Distinct(s);
      }
    }
  }

  /** A set has one strictly increasing arrangement. */
  lemma {:induction false} SortedUnique<T(!new)>(a: seq<T>, b: seq<T>, less: (T, T) -> bool)
    requires StrictOrder(less) && Sorted(a, less) && Sorted(b, less)
    requires Elements(a) == Elements(b)
    ensures a == b
  {
    if a == [] || b == [] {
      NoElements(a);
      NoElements(b);
    } else {
      assert a[0] in Elements(b) && b[0] in Elements(a);
      assert a[0] == b[0];
      TailElements(a, less);
      TailElements(b, less);
      SortedUnique(a[1..], b[1..], less);
      assert a == [a[0]] + a[1..] && b == [b[0]] + b[1..];
    }
  }

  lemma TailElements<T(!new)>(a: seq<T>, less: (T, T) -> bool)
    requires StrictOrder(less) && Sorted(a, less) && a != []
    ensures Sorted(a[1..], less) && Elements(a[1..]) == Elements(a) - {a[0]}
  {
    forall x | x in a && x != a[0] ensures x in a[1..] {
      var i :| 0 <= i < |a| && a[i] == x;
      assert a[1..][i - 1] == x;
    }
  }

  /** One step of insertion sort: `x` goes before the first element above it. */
  function Insert<T>(x: T, s: seq<T>, less: (T, T) -> bool): seq<T>
  {
    if s == [] || less(x, s[0]) then [x] + s
    else [s[0]] + Insert(x, s[1..], less)
  }

  lemma {:induction false} InsertSorted<T(!new)>(x: T, s: seq<T>, less: (T, T) -> bool)
    requires StrictOrder(less) && Sorted(s, less) && forall y :: y in s ==> less(x, y) || less(y, x)
    ensures Sorted(Insert(x, s, less), less)
    ensures Elements(Insert(x, s, less)) == Elements(s) + {x}
  {
    if s == [] || less(x, s[0]) {
    } else {
      InsertSorted(x, s[1..], less);
      TailElements(s, less);
      var r := Insert(x, s[1..], less);
      forall j | 0 <= j < |r| ensures less(s[0], r[j]) {
        assert r[j] in Elements(r);
      }
      assert Elements([s[0]] + r) == Elements(r) + {s[0]};
    }
  }

  /** `list.sort()` on a list whose items differ in what they are sorted by. */
  method SortDistinct<T(!new)>(s: seq<T>, less: (T, T) -> bool) returns (r: seq<T>)
    requires StrictOrder(less) && Comparable(s, less)
    ensures Sorted(r, less) && Elements(r) == Elements(s)
  {
    r := [];
    for k := 0 to |s|
      invariant Sorted(r, less) && Elements(r) == Elements(s[..k])
    {
      forall y | y in r ensures less(s[k], y) || less(y, s[k]) {
        assert y in Elements(r);
        var i :| 0 <= i < k && s[i] == y;
      }
      InsertSorted(s[k], r, less);
      r := Insert(s[k], r, less);
      assert Elements(s[..k + 1]) == Elements(s[..k]) + {s[k]};
    }
    assert s[..|s|] == s;
  }

  ghost predicate ComparableSet<T(!new)>(items: set<T>, less: (T, T) -> bool)
  {
    forall x, y :: x in items && y in items && x != y ==> less(x, y) || less(y, x)
  }

  /** `sorted(...)` over a set. */
  method SortSet<T(!new, ==)>(items: set<T>, less: (T, T) -> bool) returns (r: seq<T>)
    requires StrictOrder(less) && ComparableSet(items, less)
    ensures Sorted(r, less) && Elements(r) == items
  {
    r := [];
    var rest := items;
    while rest != {}
      invariant rest <= items && Sorted(r, less) && Elements(r) == items - rest
      decreases rest
    {
      var x :| x in rest;
      forall y | y in r ensures less(x, y) || less(y, x) {
        assert y in Elements(r);
      }
      InsertSorted(x, r, less);
      r := Insert(x, r, less);
      rest := rest - {x};
    }
  }

  /** The increasing arrangement of a set. */
  ghost function Arranged<T(!new)>(items: set<T>, less: (T, T) -> bool): (r: seq<T>)
    requires StrictOrder(less) && ComparableSet(items, less)
    ensures Sorted(r, less) && Elements(r) == items
  {
    if items == {} then []
    else
      var x :| x in items;
      var rest := Arranged(items - {x}, less);
      assert forall y :: y in rest ==> y in Elements(rest);
      InsertSorted(x, rest, less);
      Insert(x, rest, less)
  }

  ghost predicate IsLeast<T(!new)>(m: T, items: set<T>, less: (T, T) -> bool)
  {
    m in items && forall x :: x in items && x != m ==> less(m, x)
  }

  /** The least element of a non-empty set. */
  ghost function Least<T(!new)>(items: set<T>, less: (T, T) -> bool): (m: T)
    requires StrictTotalOrder(less) && items != {}
    ensures IsLeast(m, items, less)
  {
    LeastExistsWitness(items, less);
    var m :| IsLeast(m, items, less);
    m
  }

  lemma {:induction false} LeastExists<T(!new)>(items: set<T>, less: (T, T) -> bool) returns (m: T)
    requires StrictTotalOrder(less) && items != {}
    ensures IsLeast(m, items, less)
  {
    m :| m in items;
    if items != {m} {
      var n := LeastExists(items - {m}, less);
      if less(n, m) {
        m := n;
      } else {
        forall x | x in items && x != m ensures less(m, x) {
          assert x == n || less(n, x);
        }
      }
    }
  }

  lemma LeastExistsWitness<T(!new)>(items: set<T>, less: (T, T) -> bool)
    requires StrictTotalOrder(less) && items != {}
    ensures exists m :: IsLeast(m, items, less)
  {
    var m := LeastExists(items, less);
  }

  lemma FirstIsLeast<T(!new)>(s: seq<T>, less: (T, T) -> bool)
    requires StrictTotalOrder(less) && Sorted(s, less) && s != []
    ensures Elements(s) != {} && s[0] == Least(Elements(s), less)
  {
    assert s[0] in Elements(s);
  }
}
