/** What a session with a pointer store may rely on: stored data comes back, deleted data does not,
  listings are newest first. */
module StoreLaws {
  import opened Wrappers
  import opened Sorting
  import opened Timestamps
  import opened PointerTable
  import opened StoreAgreement
  import Text

  // ----- Sessions as tables -----

  ghost function TableAfter(t: Table, ops: seq<Operation>, n: nat): Table
    requires n <= |ops|
  {
    if n == 0 then t else Next(TableAfter(t, ops, n - 1), ops[n - 1])
  }

  lemma {:induction false} TableAfterFirst(t: Table, ops: seq<Operation>, n: nat)
    requires 0 < n <= |ops|
    ensures TableAfter(t, ops, n) == TableAfter(Next(t, ops[0]), ops[1..], n - 1)
  {
    if n > 1 {
      TableAfterFirst(t, ops, n - 1);
    }
  }

  lemma {:induction false} AnswerAt(t: Table, ops: seq<Operation>, n: nat)
    requires n < |ops|
    ensures |Answers(t, ops)| == |ops| && Answers(t, ops)[n] == Answer(TableAfter(t, ops, n), ops[n])
    decreases |ops|
  {
    AnswersCount(t, ops);
    if n > 0 {
      AnswerAt(Next(t, ops[0]), ops[1..], n - 1);
      TableAfterFirst(t, ops, n);
    }
  }

  lemma {:induction false} AnswersCount(t: Table, ops: seq<Operation>)
    ensures |Answers(t, ops)| == |ops|
    decreases |ops|
  {
    if ops != [] {
      AnswersCount(Next(t, ops[0]), ops[1..]);
    }
  }

  // ----- Stored data comes back -----

  /** The operation takes the pointer away: it deletes it, or cleans it up. */
  ghost predicate Removes(op: Operation, reply: Reply, id: PointerId)
  {
    op == Delete(id) || (reply.Cleaned? && id in reply.report.deleted)
  }

  lemma RecordStaysOnce(t: Table, op: Operation, id: PointerId)
    requires id in t && !Removes(op, Answer(t, op), id)
    ensures id in Next(t, op) && Next(t, op)[id] == t[id]
  {
  }

  ghost predicate RemovedAt(t: Table, ops: seq<Operation>, k: nat, id: PointerId)
    requires k < |ops|
  {
    Removes(ops[k], Answer(TableAfter(t, ops, k), ops[k]), id)
  }

  ghost predicate Undisturbed(t: Table, ops: seq<Operation>, i: nat, j: nat, id: PointerId)
    requires j <= |ops|
  {
    forall k :: i <= k < j ==> !RemovedAt(t, ops, k, id)
  }

  lemma RecordStaysAt(t: Table, ops: seq<Operation>, k: nat, id: PointerId)
    requires k < |ops| && id in TableAfter(t, ops, k) && !RemovedAt(t, ops, k, id)
    ensures id in TableAfter(t, ops, k + 1) && TableAfter(t, ops, k + 1)[id] == TableAfter(t, ops, k)[id]
  {
    RecordStaysOnce(TableAfter(t, ops, k), ops[k], id);
  }

  lemma {:induction false} RecordStays(t: Table, ops: seq<Operation>, i: nat, j: nat, id: PointerId)
    requires i <= j <= |ops| && id in TableAfter(t, ops, i) && Undisturbed(t, ops, i, j, id)
    ensures id in TableAfter(t, ops, j) && TableAfter(t, ops, j)[id] == TableAfter(t, ops, i)[id]
    decreases j - i
  {
    if i < j {
      RecordStaysAt(t, ops, i, id);
      RecordStays(t, ops, i + 1, j, id);
    }
  }

  lemma StoredIsThere(t: Table, ops: seq<Operation>, i: nat, j: nat, id: PointerId, record: Record)
    requires i < j <= |ops| && ops[i] == Store(id, record) && Answer(TableAfter(t, ops, i), ops[i]) == Stored
    requires Undisturbed(t, ops, i + 1, j, id)
    ensures id in TableAfter(t, ops, j) && TableAfter(t, ops, j)[id] == record
  {
    RecordStays(t, ops, i + 1, j, id);
  }

  /** Retrieving a stored pointer that was neither deleted nor cleaned up since gives the data that was stored. */
  lemma RetrieveAfterStore(t: Table, ops: seq<Operation>, i: nat, j: nat, id: PointerId, record: Record)
    requires i < j < |ops| && ops[i] == Store(id, record) && ops[j] == Retrieve(id)
    requires |Answers(t, ops)| == |ops| && Answers(t, ops)[i] == Stored
    requires forall k :: i < k < j ==> !Removes(ops[k], Answers(t, ops)[k], id)
    ensures Answers(t, ops)[j] == Raw(record.raw)
  {
    ReadAnswers(t, ops, i, j, id);
    StoredIsThere(t, ops, i, j, id, record);
    AnswerAt(t, ops, j);
  }

  lemma ReadAnswers(t: Table, ops: seq<Operation>, i: nat, j: nat, id: PointerId)
    requires i < j < |ops| && |Answers(t, ops)| == |ops|
    requires forall k :: i < k < j ==> !Removes(ops[k], Answers(t, ops)[k], id)
    ensures Answers(t, ops)[i] == Answer(TableAfter(t, ops, i), ops[i]) && Undisturbed(t, ops, i + 1, j, id)
  {
    forall k | i <= k < j ensures Answers(t, ops)[k] == Answer(TableAfter(t, ops, k), ops[k]) {
      AnswerAt(t, ops, k);
    }
  }

  /** And a full listing has its row, field by field. */
  lemma ListAfterStore(t: Table, ops: seq<Operation>, i: nat, j: nat, id: PointerId, record: Record, now: Instant)
    returns (p: nat)
    requires i < j < |ops| && ops[i] == Store(id, record) && ops[j] == List(true, now, None)
    requires |Answers(t, ops)| == |ops| && Answers(t, ops)[i] == Stored
    requires forall k :: i < k < j ==> !Removes(ops[k], Answers(t, ops)[k], id)
    ensures Answers(t, ops)[j].Listed? && p < |Answers(t, ops)[j].rows|
    ensures var row := Answers(t, ops)[j].rows[p];
      && row.id == id && row.summary == record.summary && row.metadata == record.metadata
      && row.created == record.created && row.ttl == record.ttl && row.expires == record.expires
      && row.expired == IsExpired(record.expires, now)
  {
    ReadAnswers(t, ops, i, j, id);
    StoredIsThere(t, ops, i, j, id, record);
    AnswerAt(t, ops, j);
    var table := TableAfter(t, ops, j);
    var rows := Listing(table, true, now);
    assert RowOf(id, record, now) in Visible(table, true, now);
    assert RowOf(id, record, now) in Elements(rows);
    p :| 0 <= p < |rows| && rows[p] == RowOf(id, record, now);
  }

  /** A removed pointer stays unknown until it is stored again. */
  lemma {:induction false} RemovedIsGone(t: Table, ops: seq<Operation>, i: nat, j: nat, id: PointerId)
    requires i < j <= |ops| && Removes(ops[i], Answer(TableAfter(t, ops, i), ops[i]), id)
    requires forall k :: i < k < j ==> !(ops[k].Store? && ops[k].id == id)
    ensures id !in TableAfter(t, ops, j)
    ensures Answer(TableAfter(t, ops, j), Retrieve(id)) == Failed(NotFound)
    decreases j
  {
    if i < j - 1 {
      RemovedIsGone(t, ops, i, j - 1, id);
      GoneStays(TableAfter(t, ops, j - 1), ops[j - 1], id);
    } else {
      RemovalRemoves(TableAfter(t, ops, i), ops[i], id);
    }
  }

  lemma GoneStays(t: Table, op: Operation, id: PointerId)
    requires id !in t && !(op.Store? && op.id == id)
    ensures id !in Next(t, op)
  {
  }

  lemma RemovalRemoves(t: Table, op: Operation, id: PointerId)
    requires Removes(op, Answer(t, op), id)
    ensures id !in Next(t, op)
  {
  }

  /** Deleting a stored pointer says so, and doing it again does not; storing it twice is refused. */
  lemma RepliesTellPresence(t: Table, id: PointerId, record: Record)
    requires id !in t
    ensures Answer(t, Delete(id)) == Deleted(false) && Answer(t, Store(id, record)) == Stored
    ensures var t' := Next(t, Store(id, record));
      && Answer(t', Store(id, record)) == Failed(DuplicateId) && Next(t', Store(id, record)) == t'
      && Answer(t', Delete(id)) == Deleted(true) && Next(t', Delete(id)) == t
  {
    assert t[id := record] - {id} == t;
  }

  /** A limit is refused exactly when it is not positive. */
  lemma LimitsRefused(t: Table, includeExpired: bool, now: Instant, n: int)
    ensures Answer(t, List(includeExpired, now, Some(n))) == Failed(BadLimit) <==> n <= 0
    ensures Answer(t, Cleanup(now, Some(n))) == Failed(BadLimit) <==> n <= 0
    ensures n <= 0 ==> Next(t, Cleanup(now, Some(n))) == t
    ensures Answer(t, List(includeExpired, now, None)) != Failed(BadLimit)
    ensures Answer(t, Cleanup(now, None)) != Failed(BadLimit)
  {
  }

  // ----- Listings -----

  /** Later timestamps come first in a listing. */
  lemma NewestFirst(t: Table, includeExpired: bool, now: Instant, p: nat, q: nat, a: Instant, b: Instant)
    requires p < |Listing(t, includeExpired, now)| && q < |Listing(t, includeExpired, now)|
    requires Valid(a) && Valid(b) && Micros(a) > Micros(b)
    requires Listing(t, includeExpired, now)[p].created == Iso(a)
    requires Listing(t, includeExpired, now)[q].created == Iso(b)
    ensures p < q
  {
    var rows := Listing(t, includeExpired, now);
    TextOrderIsTimeOrder(b, a);
    if p == q {
      Text.LessIrreflexive(Iso(a));
    } else if q < p {
      assert Newer(rows[q], rows[p]);
      NewerApart(rows[q], rows[p]);
    }
  }

  lemma NewerApart(x: Row, y: Row)
    requires Newer(x, y)
    ensures !Text.Less(x.created, y.created)
  {
    Text.LessIrreflexive(x.created);
    if Text.Less(y.created, x.created) && Text.Less(x.created, y.created) {
      Text.LessTransitive(x.created, y.created, x.created);
    }
  }

  /** A limited listing has the newest visible rows: every other one comes after all of them. */
  lemma LimitTakesNewest(t: Table, includeExpired: bool, now: Instant, n: int)
    requires n > 0
    ensures var rows := Answer(t, List(includeExpired, now, Some(n))).rows;
      var all := Visible(t, includeExpired, now);
      && |rows| == (if |all| < n then |all| else n) && Elements(rows) <= all
      && forall x, y :: x in Elements(rows) && y in all && y !in Elements(rows) ==> Newer(x, y)
  {
    var full := Listing(t, includeExpired, now);
    var rows := Take(full, Some(n));
    ListingCount(t, includeExpired, now);
    assert rows == full[..|rows|];
    forall x, y | x in Elements(rows) && y in Visible(t, includeExpired, now) && y !in Elements(rows)
      ensures Newer(x, y) {
      var i :| 0 <= i < |rows| && rows[i] == x;
      assert y in Elements(full);
      var j :| 0 <= j < |full| && full[j] == y;
      assert j < |rows| ==> y in rows;
    }
  }

  lemma ListingCount(t: Table, includeExpired: bool, now: Instant)
    ensures |Listing(t, includeExpired, now)| == |Visible(t, includeExpired, now)|
  {
    var rows := Listing(t, includeExpired, now);
    NewerIsOrder();
    forall i, j | 0 <= i < j < |rows| ensures rows[i] != rows[j] {
      assert Newer(rows[i], rows[j]);
    }
    DistinctCount(rows);
  }
}
