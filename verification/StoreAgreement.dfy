/**
  The backend contract of eap/protocol/storage/base.py: the operations every backend inherits,
  and the agreement of the two backends over any sequence of operations.
 */
module StoreAgreement {
  import opened Wrappers
  import opened Sorting
  import opened Timestamps
  import opened PointerTable
  import opened PointerStores

  // ----- When Redis does what the map does -----

  /** Fresh ids when storing, and never the id that names the index itself. */
  ghost predicate Ordinary(t: Table, op: Operation)
  {
    match op
    case Store(id, _) => id !in t && id != "ids"
    case Retrieve(id) => id != "ids" || t == map[]
    case Delete(id) => id != "ids" || t == map[]
    case List(_, _, _) => true
    case Cleanup(_, _) => true
  }

  ghost predicate OperationOk(op: Operation)
  {
    match op
    case Store(_, record) => WellTimed(record)
    case Retrieve(_) => true
    case Delete(_) => true
    case List(_, now, _) => Valid(now)
    case Cleanup(now, _) => Valid(now)
  }

  lemma AllKeysDiffer(prefix: string)
    ensures forall a, b :: PointerKey(prefix, a) == PointerKey(prefix, b) ==> a == b
  {
    forall a, b | PointerKey(prefix, a) == PointerKey(prefix, b) ensures a == b {
      KeysDiffer(prefix, a, b);
    }
  }

  /** Storing agrees with the map exactly for fresh ids other than the index's. */
  lemma StoreAgreesIff(prefix: string, keys: Keys, t: Table, id: PointerId, r: Record)
    requires Represents(prefix, keys, t)
    ensures Ordinary(t, Store(id, r)) <==>
      && RedisStore(prefix, keys, id, r).1 == Answer(t, Store(id, r))
      && Represents(prefix, RedisStore(prefix, keys, id, r).0, Next(t, Store(id, r)))
  {
    if Ordinary(t, Store(id, r)) {
      StoreRepresents(prefix, keys, t, id, r);
    } else {
      AllKeysDiffer(prefix);
    }
  }

  lemma StoreRepresents(prefix: string, keys: Keys, t: Table, id: PointerId, r: Record)
    requires Represents(prefix, keys, t) && id !in t && id != "ids"
    ensures RedisStore(prefix, keys, id, r).1 == Stored
    ensures Represents(prefix, RedisStore(prefix, keys, id, r).0, t[id := r])
  {
    var k, s := PointerKey(prefix, id), IdsKey(prefix);
    KeysDiffer(prefix, id, "ids");
    assert k !in keys && k != s;
    assert (if s in keys then keys[s].ids else {}) == t.Keys;
    var keys' := keys[k := Hash(Encode(id, r))][s := Members(t.Keys + {id})];
    assert RedisStore(prefix, keys, id, r) == (keys', Stored);
    assert t[id := r].Keys == t.Keys + {id};
    HashStored(prefix, keys, t, id, r, Members(t.Keys + {id}));
  }

  lemma HashStored(prefix: string, keys: Keys, t: Table, id: PointerId, r: Record, index: RedisValue)
    requires HashesHold(prefix, keys, t) && "ids" !in t && id != "ids"
    ensures HashesHold(prefix, keys[PointerKey(prefix, id) := Hash(Encode(id, r))][IdsKey(prefix) := index], t[id := r])
  {
    var keys', t' := keys[PointerKey(prefix, id) := Hash(Encode(id, r))][IdsKey(prefix) := index], t[id := r];
    forall x | x in t'
      ensures PointerKey(prefix, x) in keys' && keys'[PointerKey(prefix, x)] == Hash(Encode(x, t'[x]))
    {
      KeysDiffer(prefix, x, id);
      KeysDiffer(prefix, x, "ids");
    }
    forall x ensures PointerKey(prefix, x) in keys' && x != "ids" ==> x in t' {
      KeysDiffer(prefix, x, id);
      KeysDiffer(prefix, x, "ids");
    }
  }

  lemma RetrieveAgreesIff(prefix: string, keys: Keys, t: Table, id: PointerId)
    requires Represents(prefix, keys, t)
    ensures Ordinary(t, Retrieve(id)) <==> RedisRetrieve(prefix, keys, id) == Answer(t, Retrieve(id))
  {
    AllKeysDiffer(prefix);
  }

  /** Deleting the id "ids" from a non-empty store drops the index and reports success. */
  lemma DeleteAgreesIff(prefix: string, keys: Keys, t: Table, id: PointerId)
    requires Represents(prefix, keys, t)
    ensures Ordinary(t, Delete(id)) <==>
      && RedisDelete(prefix, keys, id).1 == Answer(t, Delete(id))
      && Represents(prefix, RedisDelete(prefix, keys, id).0, Next(t, Delete(id)))
  {
    AllKeysDiffer(prefix);
    if Ordinary(t, Delete(id)) {
      DeleteRepresents(prefix, keys, t, id);
    }
  }

  lemma DeleteRepresents(prefix: string, keys: Keys, t: Table, id: PointerId)
    requires Represents(prefix, keys, t) && Ordinary(t, Delete(id))
    ensures RedisDelete(prefix, keys, id).1 == Answer(t, Delete(id))
    ensures Represents(prefix, RedisDelete(prefix, keys, id).0, t - {id})
  {
    AllKeysDiffer(prefix);
    var keys', t' := RedisDelete(prefix, keys, id).0, t - {id};
    assert t'.Keys == t.Keys - {id};
    assert t' == map[] <==> t'.Keys == {};
  }

  // ----- One backend or the other -----

  datatype Backend = Lite(lite: SqlitePointerStore) | Remote(remote: RedisPointerStore)

  ghost function Parts(b: Backend): set<object>
  {
    if b.Lite? then {b.lite} else {b.remote}
  }

  ghost function Contents(b: Backend): Table
    reads Parts(b)
  {
    if b.Lite? then b.lite.rows else b.remote.table
  }

  ghost predicate Good(b: Backend)
    reads Parts(b)
  {
    TableOk(Contents(b)) && (b.Remote? ==> b.remote.Valid())
  }

  method DeletePointer(b: Backend, id: PointerId) returns (r: Reply)
    requires Good(b) && (b.Remote? ==> Ordinary(Contents(b), Delete(id)))
    modifies Parts(b)
    ensures Good(b) && Contents(b) == Next(old(Contents(b)), Delete(id)) && r == Answer(old(Contents(b)), Delete(id))
  {
    match b
    case Lite(lite) =>
      r := lite.DeletePointer(id);
    case Remote(remote) =>
      DeleteAgreesIff(remote.prefix, remote.keys, remote.table, id);
      r := remote.DeletePointer(id);
  }

  method ListPointers(b: Backend, includeExpired: bool, now: Instant, limit: Option<int>) returns (r: Reply)
    requires Good(b) && Valid(now)
    ensures r == Answer(Contents(b), List(includeExpired, now, limit))
  {
    match b
    case Lite(lite) =>
      r := lite.ListPointers(includeExpired, now, limit);
    case Remote(remote) =>
      r := remote.ListPointers(includeExpired, now, limit);
  }

  method ListExpired(b: Backend, now: Instant, limit: Option<int>) returns (r: Result<seq<Row>, StoreError>)
    requires Good(b) && Valid(now)
    ensures BadLimitGiven(limit) ==> r == Failure(BadLimit)
    ensures !BadLimitGiven(limit) ==> r == Success(Chosen(Contents(b), now, limit))
  {
    if BadLimitGiven(limit) {
      return Failure(BadLimit);
    }
    var listed := ListPointers(b, true, now, None);
    r := Success(Take(OnlyExpired(listed.rows, now), limit));
  }

  /** Deletes the rows one by one, noting the ids that were there. */
  method DeleteRows(b: Backend, rows: seq<Row>) returns (deleted: seq<PointerId>)
    requires Good(b) && Distinct(IdsOf(rows)) && forall id :: id in IdsOf(rows) ==> id in Contents(b)
    modifies Parts(b)
    ensures Good(b) && Contents(b) == Without(old(Contents(b)), IdsOf(rows)) && deleted == IdsOf(rows)
  {
    ghost var before, ids := Contents(b), IdsOf(rows);
    deleted := [];
    for k := 0 to |rows|
      invariant Good(b) && Contents(b) == Without(before, ids[..k]) && deleted == ids[..k]
    {
      OneFewer(before, ids, k);
      var found := DeletePointer(b, rows[k].id);
      if found.found {
        deleted := deleted + [rows[k].id];
      }
    }
    assert ids[..|rows|] == ids;
  }

  lemma OneFewer(t: Table, ids: seq<PointerId>, k: nat)
    requires Distinct(ids) && k < |ids| && ids[k] in t
    ensures ids[k] in Without(t, ids[..k]) && ids[..k + 1] == ids[..k] + [ids[k]]
    ensures Without(t, ids[..k]) - {ids[k]} == Without(t, ids[..k + 1])
  {
  }

  method RemoveExpired(b: Backend, now: Instant, limit: Option<int>) returns (r: Result<seq<PointerId>, StoreError>)
    requires Good(b) && Valid(now)
    modifies Parts(b)
    ensures Good(b)
    ensures BadLimitGiven(limit) ==> r == Failure(BadLimit) && Contents(b) == old(Contents(b))
    ensures !BadLimitGiven(limit) ==>
      && r == Success(IdsOf(Chosen(old(Contents(b)), now, limit)))
      && Contents(b) == AfterCleanup(old(Contents(b)), now, limit)
  {
    var expired := ListExpired(b, now, limit);
    if expired.Failure? {
      return Failure(expired.error);
    }
    ChosenIds(Contents(b), now, limit);
    var deleted := DeleteRows(b, expired.value);
    r := Success(deleted);
  }

  method CleanupExpired(b: Backend, now: Instant, limit: Option<int>) returns (r: Reply)
    requires Good(b) && Valid(now)
    modifies Parts(b)
    ensures Good(b) && Contents(b) == Next(old(Contents(b)), Cleanup(now, limit))
    ensures r == Answer(old(Contents(b)), Cleanup(now, limit))
  {
    var deleted := RemoveExpired(b, now, limit);
    if deleted.Failure? {
      return Failed(deleted.error);
    }
    var remaining := ListExpired(b, now, None);
    r := Cleaned(Report(deleted.value, |remaining.value|));
  }

  method Perform(b: Backend, op: Operation) returns (r: Reply)
    requires Good(b) && OperationOk(op) && Ordinary(Contents(b), op)
    modifies Parts(b)
    ensures Good(b) && Contents(b) == Next(old(Contents(b)), op) && r == Answer(old(Contents(b)), op)
  {
    match op
    case Store(id, record) =>
      if b.Lite? {
        r := b.lite.StorePointer(id, record);
      } else {
        StoreAgreesIff(b.remote.prefix, b.remote.keys, b.remote.table, id, record);
        r := b.remote.StorePointer(id, record);
      }
    case Retrieve(id) =>
      if b.Lite? {
        r := b.lite.RetrievePointer(id);
      } else {
        RetrieveAgreesIff(b.remote.prefix, b.remote.keys, b.remote.table, id);
        r := b.remote.RetrievePointer(id);
      }
    case Delete(id) =>
      r := DeletePointer(b, id);
    case List(includeExpired, now, limit) =>
      r := ListPointers(b, includeExpired, now, limit);
    case Cleanup(now, limit) =>
      r := CleanupExpired(b, now, limit);
  }

  // ----- Whole sessions -----

  ghost predicate AllOrdinary(t: Table, ops: seq<Operation>)
    decreases |ops|
  {
    ops == [] || (OperationOk(ops[0]) && Ordinary(t, ops[0]) && AllOrdinary(Next(t, ops[0]), ops[1..]))
  }

  ghost function Answers(t: Table, ops: seq<Operation>): seq<Reply>
    decreases |ops|
  {
    if ops == [] then [] else [Answer(t, ops[0])] + Answers(Next(t, ops[0]), ops[1..])
  }

  method Run(b: Backend, ops: seq<Operation>) returns (replies: seq<Reply>)
    requires Good(b) && AllOrdinary(Contents(b), ops)
    modifies Parts(b)
    ensures Good(b) && replies == Answers(old(Contents(b)), ops)
  {
    replies := [];
    ghost var goal := Answers(Contents(b), ops);
    for k := 0 to |ops|
      invariant Good(b) && AllOrdinary(Contents(b), ops[k..])
      invariant replies + Answers(Contents(b), ops[k..]) == goal
    {
      assert ops[k..][0] == ops[k] && ops[k..][1..] == ops[k + 1..];
      var r := Perform(b, ops[k]);
      replies := replies + [r];
    }
    assert replies + [] == replies;
  }

  /** From empty stores, any session of ordinary operations gets the same replies from both backends. */
  method BackendsAgree(prefix: string, ops: seq<Operation>) returns (lite: seq<Reply>, remote: seq<Reply>)
    requires AllOrdinary(map[], ops)
    ensures lite == remote == Answers(map[], ops)
  {
    var l := new SqlitePointerStore();
    lite := Run(Lite(l), ops);
    var r := new RedisPointerStore(prefix);
    remote := Run(Remote(r), ops);
  }
}
