/**
  The pointer vault as one map from pointer ids to records: what each backend operation
  returns and leaves behind. Metadata is kept as its JSON text. The instant `now` stands for
  the parsed `now_utc` argument or the clock reading that replaces it.
 */
module PointerTable {
  import opened Wrappers
  import opened Sorting
  import opened Timestamps
  import Text

  type PointerId = string

  datatype Record = Record(
    raw: string, summary: string, metadata: string, created: string, ttl: Option<int>, expires: Option<string>)

  type Table = map<PointerId, Record>

  datatype Row = Row(
    id: PointerId, summary: string, metadata: string, created: string,
    ttl: Option<int>, expires: Option<string>, expired: bool)

  datatype StoreError = DuplicateId | NotFound | BadLimit | WrongType

  datatype Report = Report(deleted: seq<PointerId>, remaining: nat)

  datatype Operation =
    | Store(id: PointerId, record: Record)
    | Retrieve(id: PointerId)
    | Delete(id: PointerId)
    | List(includeExpired: bool, now: Instant, limit: Option<int>)
    | Cleanup(now: Instant, limit: Option<int>)

  datatype Reply =
    | Stored
    | Raw(data: string)
    | Deleted(found: bool)
    | Listed(rows: seq<Row>)
    | Cleaned(report: Report)
    | Failed(error: StoreError)

  // ----- Expiry -----

  ghost predicate Printed(s: string) { exists t :: Valid(t) && s == Iso(t) }

  ghost predicate WellTimed(r: Record) { r.expires.Some? ==> Printed(r.expires.value) }

  ghost predicate TableOk(t: Table) { forall id :: id in t ==> WellTimed(t[id]) }

  /** `is_expired`: by parsed instants. Text no timestamp was printed as is outside the model. */
  predicate IsExpired(expires: Option<string>, now: Instant)
  {
    && expires.Some? && expires.value != ""
    && ParseUtc(expires.value).Some? && Micros(ParseUtc(expires.value).value) <= Micros(now)
  }

  /** The SQL filter `expires_at_utc IS NULL OR expires_at_utc > now`: by text. */
  predicate PassesFilter(expires: Option<string>, now: Instant)
  {
    expires.None? || Text.Less(Iso(now), expires.value)
  }

  lemma PrintedExpiry(e: Instant, now: Instant)
    requires Valid(e)
    ensures IsExpired(Some(Iso(e)), now) <==> Micros(e) <= Micros(now)
  {
    ParsePrinted(e);
  }

  /** The text filter keeps exactly the rows that are not expired. */
  lemma FilterIsExpiry(expires: Option<string>, now: Instant)
    requires Valid(now) && (expires.Some? ==> Printed(expires.value))
    ensures PassesFilter(expires, now) <==> !IsExpired(expires, now)
  {
    if expires.Some? {
      var e :| Valid(e) && expires.value == Iso(e);
      PrintedExpiry(e, now);
      TextOrderIsTimeOrder(now, e);
    }
  }

  /** `store_and_point`: the stored timestamps, or `None` when the expiry cannot be represented. */
  function Lifetime(created: Instant, ttl: Option<int>): Option<(string, Option<string>)>
    requires Valid(created) && (ttl.Some? ==> ttl.value > 0)
  {
    if ttl.None? then Some((Iso(created), None))
    else
      var e :- Plus(created, ttl.value);
      Some((Iso(created), Some(Iso(e))))
  }

  /** A pointer counts as expired exactly when its lifetime has passed since it was created. */
  lemma ExpiredWhenLifetimePassed(created: Instant, ttl: Option<int>, now: Instant)
    requires Valid(created) && Valid(now) && (ttl.Some? ==> ttl.value > 0) && Lifetime(created, ttl).Some?
    ensures var expires := Lifetime(created, ttl).value.1;
      && (expires.Some? ==> Printed(expires.value))
      && (IsExpired(expires, now) <==> ttl.Some? && Micros(now) - Micros(created) >= ttl.value * 1000000)
  {
    if ttl.Some? {
      var e := Plus(created, ttl.value).value;
      PrintedExpiry(e, now);
    }
  }

  // ----- Listings -----

  /** `ORDER BY created_at_utc DESC, pointer_id DESC`. */
  predicate Newer(a: Row, b: Row)
  {
    Text.Less(b.created, a.created) || (b.created == a.created && Text.Less(b.id, a.id))
  }

  lemma NewerIsOrder()
    ensures StrictOrder(Newer)
  {
    forall a: Row ensures !Newer(a, a) {
      Text.LessIrreflexive(a.created);
      Text.LessIrreflexive(a.id);
    }
    forall a: Row, b: Row, c: Row | Newer(a, b) && Newer(b, c) ensures Newer(a, c) {
      if Text.Less(c.created, b.created) && Text.Less(b.created, a.created) {
        Text.LessTransitive(c.created, b.created, a.created);
      }
      if Text.Less(c.id, b.id) && Text.Less(b.id, a.id) { Text.LessTransitive(c.id, b.id, a.id); }
    }
  }

  lemma RowsCompare(a: Row, b: Row)
    requires a.id != b.id
    ensures Newer(a, b) || Newer(b, a)
  {
    Text.LessTotal(a.created, b.created);
    Text.LessTotal(a.id, b.id);
  }

  function RowOf(id: PointerId, r: Record, now: Instant): Row
  {
    Row(id, r.summary, r.metadata, r.created, r.ttl, r.expires, IsExpired(r.expires, now))
  }

  ghost function Visible(t: Table, includeExpired: bool, now: Instant): set<Row>
  {
    set id | id in t && (includeExpired || !IsExpired(t[id].expires, now)) :: RowOf(id, t[id], now)
  }

  lemma VisibleCompare(t: Table, includeExpired: bool, now: Instant)
    ensures StrictOrder(Newer) && ComparableSet(Visible(t, includeExpired, now), Newer)
  {
    NewerIsOrder();
    forall a, b | a in Visible(t, includeExpired, now) && b in Visible(t, includeExpired, now) && a != b
      ensures Newer(a, b) || Newer(b, a)
    {
      RowsCompare(a, b);
    }
  }

  ghost function Listing(t: Table, includeExpired: bool, now: Instant): (rows: seq<Row>)
    ensures Sorted(rows, Newer) && Elements(rows) == Visible(t, includeExpired, now)
  {
    VisibleCompare(t, includeExpired, now);
    Arranged(Visible(t, includeExpired, now), Newer)
  }

  /** The listing is the only newest-first arrangement of the visible rows. */
  lemma ListingUnique(rows: seq<Row>, t: Table, includeExpired: bool, now: Instant)
    requires Sorted(rows, Newer) && Elements(rows) == Visible(t, includeExpired, now)
    ensures rows == Listing(t, includeExpired, now)
  {
    NewerIsOrder();
    SortedUnique(rows, Listing(t, includeExpired, now), Newer);
  }

  predicate BadLimitGiven(limit: Option<int>) { limit.Some? && limit.value <= 0 }

  function Take<T>(s: seq<T>, limit: Option<int>): seq<T>
    requires !BadLimitGiven(limit)
  {
    if limit.None? || |s| <= limit.value then s else s[..limit.value]
  }

  function OnlyExpired(rows: seq<Row>, now: Instant): seq<Row>
  {
    if rows == [] then []
    else (if IsExpired(rows[0].expires, now) then [rows[0]] else []) + OnlyExpired(rows[1..], now)
  }

  ghost function ExpiredRows(t: Table, now: Instant): seq<Row>
  {
    OnlyExpired(Listing(t, true, now), now)
  }

  function IdsOf(rows: seq<Row>): seq<PointerId>
  {
    seq(|rows|, i requires 0 <= i < |rows| => rows[i].id)
  }

  function Without(t: Table, ids: seq<PointerId>): Table
  {
    map id | id in t && id !in ids :: t[id]
  }

  ghost function Chosen(t: Table, now: Instant, limit: Option<int>): seq<Row>
    requires !BadLimitGiven(limit)
  {
    Take(ExpiredRows(t, now), limit)
  }

  ghost function AfterCleanup(t: Table, now: Instant, limit: Option<int>): Table
    requires !BadLimitGiven(limit)
  {
    Without(t, IdsOf(Chosen(t, now, limit)))
  }

  ghost function CleanupReport(t: Table, now: Instant, limit: Option<int>): Report
    requires !BadLimitGiven(limit)
  {
    Report(IdsOf(Chosen(t, now, limit)), |ExpiredRows(AfterCleanup(t, now, limit), now)|)
  }

  // ----- Operations on the table -----

  ghost function Next(t: Table, op: Operation): Table
  {
    match op
    case Store(id, record) => if id in t then t else t[id := record]
    case Retrieve(_) => t
    case Delete(id) => t - {id}
    case List(_, _, _) => t
    case Cleanup(now, limit) => if BadLimitGiven(limit) then t else AfterCleanup(t, now, limit)
  }

  ghost function Answer(t: Table, op: Operation): Reply
  {
    match op
    case Store(id, record) => if id in t then Failed(DuplicateId) else Stored
    case Retrieve(id) => if id in t then Raw(t[id].raw) else Failed(NotFound)
    case Delete(id) => Deleted(id in t)
    case List(includeExpired, now, limit) =>
      if BadLimitGiven(limit) then Failed(BadLimit) else Listed(Take(Listing(t, includeExpired, now), limit))
    case Cleanup(now, limit) =>
      if BadLimitGiven(limit) then Failed(BadLimit) else Cleaned(CleanupReport(t, now, limit))
  }

  // ----- Cleanup -----

  ghost function ExpiredIds(t: Table, now: Instant): set<PointerId>
  {
    set id | id in t && IsExpired(t[id].expires, now)
  }

  lemma {:induction false} OnlyExpiredElements(rows: seq<Row>, now: Instant)
    ensures forall r :: r in OnlyExpired(rows, now) <==> r in rows && IsExpired(r.expires, now)
  {
    if rows != [] {
      OnlyExpiredElements(rows[1..], now);
      assert forall r :: r in rows <==> r == rows[0] || r in rows[1..];
    }
  }

  lemma {:induction false} OnlyExpiredSorted(rows: seq<Row>, now: Instant)
    requires Sorted(rows, Newer)
    ensures Sorted(OnlyExpired(rows, now), Newer)
  {
    if rows != [] {
      OnlyExpiredSorted(rows[1..], now);
      OnlyExpiredElements(rows[1..], now);
      var rest := OnlyExpired(rows[1..], now);
      forall i | 0 <= i < |rest| ensures Newer(rows[0], rest[i]) {
        assert rest[i] in rows[1..];
      }
    }
  }

  /** The expired rows, one per expired id. */
  lemma ExpiredRowsShape(t: Table, now: Instant)
    ensures var ids := IdsOf(ExpiredRows(t, now));
      && Elements(ids) == ExpiredIds(t, now)
      && Distinct(ids)
  {
    var rows := ExpiredRows(t, now);
    var ids := IdsOf(rows);
    ExpiredRowsAre(t, now);
    forall id | id in ExpiredIds(t, now) ensures id in ids {
      var r := RowOf(id, t[id], now);
      assert r.id == id && r in rows;
      var i :| 0 <= i < |rows| && rows[i] == r;
      assert ids[i] == id;
    }
    OnlyExpiredSorted(Listing(t, true, now), now);
    SortedIdsDiffer(rows);
  }

  /** They are the rows of the expired ids. */
  lemma ExpiredRowsAre(t: Table, now: Instant)
    ensures forall r :: r in ExpiredRows(t, now) <==> r.id in ExpiredIds(t, now) && r == RowOf(r.id, t[r.id], now)
  {
    var all := Listing(t, true, now);
    OnlyExpiredElements(all, now);
    forall r ensures r in all <==> r.id in t && r == RowOf(r.id, t[r.id], now) {
      assert r in all <==> r in Elements(all);
    }
  }

  lemma SortedIdsDiffer(rows: seq<Row>)
    requires Sorted(rows, Newer) && forall r, r' :: r in rows && r' in rows && r.id == r'.id ==> r == r'
    ensures Distinct(IdsOf(rows))
  {
    NewerIsOrder();
    forall i, j | 0 <= i < j < |rows| ensures rows[i].id != rows[j].id {
      assert Newer(rows[i], rows[j]) && rows[i] in rows && rows[j] in rows;
    }
  }

  lemma ExpiredCount(t: Table, now: Instant)
    ensures |ExpiredRows(t, now)| == |ExpiredIds(t, now)|
  {
    ExpiredRowsShape(t, now);
    DistinctCount(IdsOf(ExpiredRows(t, now)));
  }

  lemma ChosenIds(t: Table, now: Instant, limit: Option<int>)
    requires !BadLimitGiven(limit)
    ensures var ids := IdsOf(Chosen(t, now, limit));
      && Distinct(ids) && Elements(ids) <= ExpiredIds(t, now) && (forall id :: id in ids ==> id in t)
      && (limit.None? ==> Elements(ids) == ExpiredIds(t, now))
      && |ids| == if limit.Some? && limit.value < |ExpiredIds(t, now)| then limit.value else |ExpiredIds(t, now)|
  {
    ExpiredRowsShape(t, now);
    ExpiredCount(t, now);
    var all, ids := IdsOf(ExpiredRows(t, now)), IdsOf(Chosen(t, now, limit));
    assert ids == all[..|ids|];
    assert forall id :: id in ids ==> id in Elements(all);
    assert all[..|all|] == all;
  }

  /**
    Cleanup removes expired records only, at most `limit` of them and as many as that allows,
    leaves every other record as it was, and what it deleted plus what it reports as remaining
    is what was expired before.
   */
  lemma CleanupConserves(t: Table, now: Instant, limit: Option<int>)
    requires !BadLimitGiven(limit)
    ensures var t', report := Next(t, Cleanup(now, limit)), Answer(t, Cleanup(now, limit)).report;
      && (forall id :: id in report.deleted ==> id in ExpiredIds(t, now))
      && (forall id :: id in t' <==> id in t && id !in report.deleted)
      && (forall id :: id in t' ==> t'[id] == t[id])
      && |report.deleted| + report.remaining == |ExpiredIds(t, now)|
      && report.remaining == |ExpiredIds(t', now)|
      && (limit.None? ==> report.remaining == 0)
      && (limit.Some? ==> report.remaining == 0 || |report.deleted| == limit.value)
  {
    var ids, t' := IdsOf(Chosen(t, now, limit)), Next(t, Cleanup(now, limit));
    ChosenIds(t, now, limit);
    ExpiredCount(t', now);
    DistinctCount(ids);
    assert forall id :: id in ids <==> id in Elements(ids);
    assert ExpiredIds(t', now) == ExpiredIds(t, now) - Elements(ids);
  }
}
