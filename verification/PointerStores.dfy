/**
  The two pointer store backends: one table of rows in SQLite; in Redis, a hash per pointer
  and a set of ids, in one key space. Both refine the map of PointerTable.
 */
module PointerStores {
  import opened Wrappers
  import opened Sorting
  import opened Timestamps
  import opened PointerTable
  import D = Decimal
  import Text

  // ----- SQLite -----

  class SqlitePointerStore {
    var rows: Table

    constructor ()
      ensures rows == map[]
    {
      rows := map[];
    }

    /** `INSERT`: the primary key refuses a second row with the same id. */
    method StorePointer(id: PointerId, record: Record) returns (r: Reply)
      modifies this
      ensures rows == Next(old(rows), Store(id, record)) && r == Answer(old(rows), Store(id, record))
    {
      if id in rows {
        return Failed(DuplicateId);
      }
      rows := rows[id := record];
      r := Stored;
    }

    method RetrievePointer(id: PointerId) returns (r: Reply)
      ensures r == Answer(rows, Retrieve(id))
    {
      if id !in rows {
        return Failed(NotFound);
      }
      r := Raw(rows[id].raw);
    }

    method DeletePointer(id: PointerId) returns (r: Reply)
      modifies this
      ensures rows == Next(old(rows), Delete(id)) && r == Answer(old(rows), Delete(id))
    {
      var found := id in rows;
      rows := rows - {id};
      r := Deleted(found);
    }

    /** The query: filters by text and orders. */
    method Select(includeExpired: bool, now: Instant) returns (fetched: seq<Entry>)
      requires TableOk(rows) && Valid(now)
      ensures Built(fetched, now) == Listing(rows, includeExpired, now)
    {
      var table := rows;
      var selected := set id | id in table && (includeExpired || PassesFilter(table[id].expires, now)) ::
        Entry(id, table[id]);
      EntriesCompare(selected);
      fetched := SortSet(selected, NewerEntry);
      EntriesAreVisible(table, includeExpired, now, fetched, selected);
    }

    method ListPointers(includeExpired: bool, now: Instant, limit: Option<int>) returns (r: Reply)
      requires TableOk(rows) && Valid(now)
      ensures r == Answer(rows, List(includeExpired, now, limit))
    {
      if BadLimitGiven(limit) {
        return Failed(BadLimit);
      }
      var fetched := Select(includeExpired, now);
      TakeBuilt(fetched, now, limit);
      fetched := Take(fetched, limit);
      var pointers: seq<Row> := [];
      for k := 0 to |fetched|
        invariant pointers == Built(fetched[..k], now)
      {
        pointers := pointers + [RowOf(fetched[k].id, fetched[k].record, now)];
      }
      assert fetched[..|fetched|] == fetched;
      r := Listed(pointers);
    }
  }

  datatype Entry = Entry(id: PointerId, record: Record)

  predicate NewerEntry(a: Entry, b: Entry)
  {
    Text.Less(b.record.created, a.record.created) || (b.record.created == a.record.created && Text.Less(b.id, a.id))
  }

  function Built(entries: seq<Entry>, now: Instant): seq<Row>
  {
    seq(|entries|, i requires 0 <= i < |entries| => RowOf(entries[i].id, entries[i].record, now))
  }

  lemma TakeBuilt(entries: seq<Entry>, now: Instant, limit: Option<int>)
    requires !BadLimitGiven(limit)
    ensures Built(Take(entries, limit), now) == Take(Built(entries, now), limit)
  {
  }

  lemma NewerEntryIsNewer(a: Entry, b: Entry, now: Instant)
    ensures NewerEntry(a, b) <==> Newer(RowOf(a.id, a.record, now), RowOf(b.id, b.record, now))
  {
  }

  lemma EntriesCompare(entries: set<Entry>)
    requires forall a, b :: a in entries && b in entries && a.id == b.id ==> a == b
    ensures StrictOrder(NewerEntry) && ComparableSet(entries, NewerEntry)
  {
    NewerIsOrder();
    var now := Instant(1, 1, 1, 0, 0, 0, 0);
    forall a: Entry, b: Entry
      ensures NewerEntry(a, b) <==> Newer(RowOf(a.id, a.record, now), RowOf(b.id, b.record, now))
    {
      NewerEntryIsNewer(a, b, now);
    }
    forall a, b | a in entries && b in entries && a != b ensures NewerEntry(a, b) || NewerEntry(b, a) {
      RowsCompare(RowOf(a.id, a.record, now), RowOf(b.id, b.record, now));
    }
  }

  lemma EntriesAreVisible(t: Table, includeExpired: bool, now: Instant, fetched: seq<Entry>, selected: set<Entry>)
    requires TableOk(t) && Valid(now)
    requires selected == set id | id in t && (includeExpired || PassesFilter(t[id].expires, now)) :: Entry(id, t[id])
    requires Sorted(fetched, NewerEntry) && Elements(fetched) == selected
    ensures Built(fetched, now) == Listing(t, includeExpired, now)
  {
    var rows := Built(fetched, now);
    forall id | id in t ensures PassesFilter(t[id].expires, now) <==> !IsExpired(t[id].expires, now) {
      FilterIsExpiry(t[id].expires, now);
    }
    forall i | 0 <= i < |rows| ensures rows[i] in Visible(t, includeExpired, now) {
      assert fetched[i] in Elements(fetched);
    }
    forall r | r in Visible(t, includeExpired, now) ensures r in rows {
      assert Entry(r.id, t[r.id]) in Elements(fetched);
      var i :| 0 <= i < |fetched| && fetched[i] == Entry(r.id, t[r.id]);
      assert rows[i] == r;
    }
    forall i, j | 0 <= i < j < |rows| ensures Newer(rows[i], rows[j]) {
      NewerEntryIsNewer(fetched[i], fetched[j], now);
    }
    ListingUnique(rows, t, includeExpired, now);
  }

  // ----- Redis -----

  /** A pointer's hash: every field is text, and an absent value is the empty text. */
  datatype Fields = Fields(
    id: string, raw: string, summary: string, metadata: string, created: string, ttl: string, expires: string)

  datatype RedisValue = Hash(fields: Fields) | Members(ids: set<string>)

  type Keys = map<string, RedisValue>

  function PointerKey(prefix: string, id: PointerId): string { prefix + ":" + id }

  function IdsKey(prefix: string): string { PointerKey(prefix, "ids") }

  lemma KeysDiffer(prefix: string, a: PointerId, b: PointerId)
    ensures PointerKey(prefix, a) == PointerKey(prefix, b) <==> a == b
  {
    var n := |prefix + ":"|;
    assert PointerKey(prefix, a)[n..] == a && PointerKey(prefix, b)[n..] == b;
  }

  function Encode(id: PointerId, r: Record): Fields
  {
    Fields(id, r.raw, r.summary, r.metadata, r.created,
           if r.ttl.None? then "" else D.ShowInt(r.ttl.value),
           if r.expires.None? then "" else r.expires.value)
  }

  /** One listed row from a hash, with its text fields read back. */
  function Decode(h: Fields, now: Instant): Row
  {
    var expires := if h.expires == "" then None else Some(h.expires);
    var ttl := if h.ttl == "" then None else D.ReadInt(h.ttl);
    Row(h.id, h.summary, h.metadata, h.created, ttl, expires, IsExpired(expires, now))
  }

  lemma DecodeEncode(id: PointerId, r: Record, now: Instant)
    requires WellTimed(r)
    ensures Decode(Encode(id, r), now) == RowOf(id, r, now)
  {
    if r.ttl.Some? {
      D.ReadShow(r.ttl.value);
    }
  }

  ghost predicate IndexHolds(prefix: string, keys: Keys, t: Table)
  {
    && (IdsKey(prefix) in keys <==> t != map[])
    && (IdsKey(prefix) in keys ==> keys[IdsKey(prefix)] == Members(t.Keys))
  }

  ghost predicate HashesHold(prefix: string, keys: Keys, t: Table)
  {
    && (forall id :: id in t ==>
          PointerKey(prefix, id) in keys && keys[PointerKey(prefix, id)] == Hash(Encode(id, t[id])))
    && (forall id :: PointerKey(prefix, id) in keys && id != "ids" ==> id in t)
  }

  /** The key space holds the table: a hash per record, and the set of ids unless it is empty. */
  ghost predicate Represents(prefix: string, keys: Keys, t: Table)
  {
    "ids" !in t && IndexHolds(prefix, keys, t) && HashesHold(prefix, keys, t)
  }

  /** HSET, then SADD; either refuses a key that holds the other kind of value. */
  function RedisStore(prefix: string, keys: Keys, id: PointerId, r: Record): (Keys, Reply)
  {
    var k, s := PointerKey(prefix, id), IdsKey(prefix);
    if k in keys && keys[k].Members? then (keys, Failed(WrongType))
    else
      var keys' := keys[k := Hash(Encode(id, r))];
      if s in keys' && keys'[s].Hash? then (keys', Failed(WrongType))
      else (keys'[s := Members((if s in keys' then keys'[s].ids else {}) + {id})], Stored)
  }

  function RedisRetrieve(prefix: string, keys: Keys, id: PointerId): Reply
  {
    var k := PointerKey(prefix, id);
    if k !in keys then Failed(NotFound)
    else if keys[k].Members? then Failed(WrongType)
    else Raw(keys[k].fields.raw)
  }

  /** DEL, then SREM, which drops a set that becomes empty. */
  function RedisDelete(prefix: string, keys: Keys, id: PointerId): (Keys, Reply)
  {
    var k, s := PointerKey(prefix, id), IdsKey(prefix);
    var keys' := keys - {k};
    if s !in keys' then (keys', Deleted(k in keys))
    else if keys'[s].Hash? then (keys', Failed(WrongType))
    else
      var ids := keys'[s].ids - {id};
      (if ids == {} then keys' - {s} else keys'[s := Members(ids)], Deleted(k in keys))
  }

  class RedisPointerStore {
    const prefix: string
    var keys: Keys
    ghost var table: Table

    ghost predicate Valid()
      reads this
    {
      Represents(prefix, keys, table)
    }

    constructor (prefix: string)
      ensures Valid() && table == map[] && this.prefix == prefix
    {
      this.prefix := prefix;
      keys, table := map[], map[];
    }

    method StorePointer(id: PointerId, record: Record) returns (r: Reply)
      modifies this
      ensures (keys, r) == RedisStore(prefix, old(keys), id, record)
      ensures table == if r == Stored then old(table)[id := record] else old(table)
    {
      var k, s := PointerKey(prefix, id), IdsKey(prefix);
      if k in keys && keys[k].Members? {
        return Failed(WrongType);
      }
      keys := keys[k := Hash(Encode(id, record))];
      if s in keys && keys[s].Hash? {
        return Failed(WrongType);
      }
      keys := keys[s := Members((if s in keys then keys[s].ids else {}) + {id})];
      table := table[id := record];
      r := Stored;
    }

    method RetrievePointer(id: PointerId) returns (r: Reply)
      ensures r == RedisRetrieve(prefix, keys, id)
    {
      var k := PointerKey(prefix, id);
      if k !in keys {
        return Failed(NotFound);
      }
      if keys[k].Members? {
        return Failed(WrongType);
      }
      r := Raw(keys[k].fields.raw);
    }

    method DeletePointer(id: PointerId) returns (r: Reply)
      modifies this
      ensures (keys, r) == RedisDelete(prefix, old(keys), id)
      ensures table == old(table) - {id}
    {
      var k, s := PointerKey(prefix, id), IdsKey(prefix);
      var removed := k in keys;
      keys, table := keys - {k}, table - {id};
      if s in keys {
        if keys[s].Hash? {
          return Failed(WrongType);
        }
        var ids := keys[s].ids - {id};
        keys := if ids == {} then keys - {s} else keys[s := Members(ids)];
      }
      r := Deleted(removed);
    }

    /** Reads the rows in whatever order the id set yields them. */
    method Collect(includeExpired: bool, now: Instant) returns (rows: seq<Row>)
      requires Valid() && TableOk(table)
      ensures Collected(table, includeExpired, now, table.Keys, rows)
    {
      var s := IdsKey(prefix);
      var pending := if s in keys then keys[s].ids else {};
      rows := [];
      ghost var seen: set<PointerId> := {};
      assert pending == table.Keys;
      while pending != {}
        invariant pending + seen == table.Keys && pending !! seen
        invariant Collected(table, includeExpired, now, seen, rows)
        decreases pending
      {
        var id :| id in pending;
        assert id in table;
        var row := Decode(keys[PointerKey(prefix, id)].fields, now);
        DecodeEncode(id, table[id], now);
        CollectOne(table, includeExpired, now, seen, rows, id);
        if includeExpired || !row.expired {
          rows := rows + [row];
        }
        pending, seen := pending - {id}, seen + {id};
      }
      assert seen == table.Keys;
    }

    method ListPointers(includeExpired: bool, now: Instant, limit: Option<int>) returns (r: Reply)
      requires Valid() && TableOk(table)
      ensures r == Answer(table, List(includeExpired, now, limit))
    {
      if BadLimitGiven(limit) {
        return Failed(BadLimit);
      }
      var rows := Collect(includeExpired, now);
      CollectedAll(table, includeExpired, now, rows);
      rows := SortDistinct(rows, Newer);
      ListingUnique(rows, table, includeExpired, now);
      r := Listed(Take(rows, limit));
    }
  }

  /** The rows of the ids seen so far, each once. */
  ghost predicate Collected(t: Table, includeExpired: bool, now: Instant, seen: set<PointerId>, rows: seq<Row>)
  {
    && Elements(rows) ==
         (set id | id in seen && id in t && (includeExpired || !IsExpired(t[id].expires, now)) :: RowOf(id, t[id], now))
    && forall i, j :: 0 <= i < j < |rows| ==> rows[i].id != rows[j].id
  }

  lemma CollectOne(t: Table, includeExpired: bool, now: Instant, seen: set<PointerId>, rows: seq<Row>, id: PointerId)
    requires Collected(t, includeExpired, now, seen, rows) && id in t && id !in seen
    ensures var row := RowOf(id, t[id], now);
      Collected(t, includeExpired, now, seen + {id}, if includeExpired || !row.expired then rows + [row] else rows)
  {
    var row := RowOf(id, t[id], now);
    forall i | 0 <= i < |rows| ensures rows[i].id != id {
      assert rows[i] in Elements(rows);
    }
    assert Elements(rows + [row]) == Elements(rows) + {row};
  }

  lemma CollectedAll(t: Table, includeExpired: bool, now: Instant, rows: seq<Row>)
    requires Collected(t, includeExpired, now, t.Keys, rows)
    ensures Elements(rows) == Visible(t, includeExpired, now) && StrictOrder(Newer) && Comparable(rows, Newer)
  {
    NewerIsOrder();
    forall i, j | 0 <= i < j < |rows| ensures Newer(rows[i], rows[j]) || Newer(rows[j], rows[i]) {
      RowsCompare(rows[i], rows[j]);
    }
  }
}
