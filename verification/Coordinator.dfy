/**
  The distributed lease coordinator (eap/environment/distributed_executor.py): two tables
  and the transitions its public methods make on them. Clock readings, fresh lease ids and
  worker calls are parameters. Instants are integers; the Timestamps module shows that the
  text comparison the tables use is comparison of instants.
 */
module Coordinator {
  import opened Wrappers
  import opened Sorting
  import Text
  import M = Macro

  type Time = int
  type Pointer = string
  type LeaseId = string

  datatype Key = Key(run: string, step: string)

  datatype StepStatus = Queued | Started | Completed | Failed

  datatype StepRow = StepRow(
    dependsOn: set<string>, status: StepStatus, attempt: nat, maxAttempts: nat,
    nextAttemptAt: Option<Time>, output: Option<Pointer>)

  datatype LeaseStatus = Active | Expired | LeaseCompleted | LeaseFailed

  datatype LeaseRow = LeaseRow(key: Key, worker: string, attempt: nat, expiresAt: Time, status: LeaseStatus)

  datatype Db = Db(steps: map<Key, StepRow>, leases: map<LeaseId, LeaseRow>)

  /** What a claim hands to the worker, and the lease it wrote. */
  datatype Grant = Grant(lease: LeaseId, key: Key, attempt: nat, expiresAt: Time)

  /** A fresh lease id and the expiry computed for it. */
  datatype Ticket = Ticket(id: LeaseId, expiresAt: Time)

  // ----- Dependencies -----

  /** `value.replace("$step:", "")`: every occurrence goes. */
  function WithoutPrefix(text: string): string
    decreases |text|
  {
    if M.StepPrefix <= text then WithoutPrefix(text[|M.StepPrefix|..])
    else if text == "" then "" else [text[0]] + WithoutPrefix(text[1..])
  }

  /** Only whole top-level string arguments count. */
  function Dependencies(arguments: seq<(string, M.Value)>): set<string>
  {
    set i | 0 <= i < |arguments| && arguments[i].1.Str? && M.StepPrefix <= arguments[i].1.text
         && M.Head(WithoutPrefix(arguments[i].1.text)) != ""
      :: M.Head(WithoutPrefix(arguments[i].1.text))
  }

  // ----- Transitions -----

  ghost predicate FreshRun(db: Db, run: string)
  {
    (forall k :: k in db.steps ==> k.run != run) && (forall l :: l in db.leases ==> db.leases[l].key.run != run)
  }

  function NewRow(step: M.Step, maxAttempts: nat, now: Time): StepRow
  {
    StepRow(Dependencies(step.arguments), Queued, 0, maxAttempts, Some(now), None)
  }

  /** `INSERT OR REPLACE`, one row per step. */
  function Enqueue(db: Db, run: string, steps: seq<M.Step>, maxAttempts: nat, now: Time): Db
  {
    if steps == [] then db
    else
      var rest := Enqueue(db, run, steps[..|steps| - 1], maxAttempts, now);
      var step := steps[|steps| - 1];
      rest.(steps := rest.steps[Key(run, step.stepId) := NewRow(step, maxAttempts, now)])
  }

  function Stale(db: Db, now: Time): set<LeaseId>
  {
    set l | l in db.leases && db.leases[l].status == Active && db.leases[l].expiresAt <= now
  }

  /** Marks the leases of `swept` expired and requeues the started steps they belong to. */
  function Sweep(db: Db, swept: set<LeaseId>, now: Time): Db
    requires swept <= db.leases.Keys
  {
    Db(map k | k in db.steps ::
         if db.steps[k].status == Started && exists l :: l in swept && db.leases[l].key == k
         then db.steps[k].(status := Queued, nextAttemptAt := Some(now)) else db.steps[k],
       map l | l in db.leases :: if l in swept then db.leases[l].(status := Expired) else db.leases[l])
  }

  function Expire(db: Db, now: Time): Db
  {
    Sweep(db, Stale(db, now), now)
  }

  /** Completed steps of the run that have a non-empty output pointer. */
  predicate HasPointer(db: Db, k: Key)
  {
    k in db.steps && db.steps[k].status == Completed && db.steps[k].output.Some? && db.steps[k].output.value != ""
  }

  predicate Claimable(db: Db, k: Key, now: Time)
    requires k in db.steps
  {
    && (db.steps[k].nextAttemptAt.Some? ==> db.steps[k].nextAttemptAt.value <= now)
    && forall d :: d in db.steps[k].dependsOn ==> HasPointer(db, Key(k.run, d))
  }

  /** The UPDATE has no status guard: it is the caller that picks a queued row. */
  function Grab(db: Db, k: Key, worker: string, t: Ticket): Db
    requires k in db.steps
  {
    var attempt := db.steps[k].attempt + 1;
    Db(db.steps[k := db.steps[k].(status := Started, attempt := attempt)],
       db.leases[t.id := LeaseRow(k, worker, attempt, t.expiresAt, Active)])
  }

  datatype Claimed = Claimed(db: Db, grants: seq<Grant>)

  /** One pass over the queued rows, in the order they were selected. */
  function ClaimFrom(db: Db, queue: seq<Key>, capacity: nat, now: Time, worker: string, tickets: seq<Ticket>): Claimed
    requires |tickets| >= capacity && forall k :: k in queue ==> k in db.steps
    decreases |queue|
  {
    if queue == [] || capacity == 0 then Claimed(db, [])
    else if !Claimable(db, queue[0], now) then ClaimFrom(db, queue[1..], capacity, now, worker, tickets)
    else
      var k, t := queue[0], tickets[0];
      var db' := Grab(db, k, worker, t);
      var rest := ClaimFrom(db', queue[1..], capacity - 1, now, worker, tickets[1..]);
      Claimed(rest.db, [Grant(t.id, k, db'.steps[k].attempt, t.expiresAt)] + rest.grants)
  }

  function QueuedKeys(db: Db): set<Key>
  {
    set k | k in db.steps && db.steps[k].status == Queued
  }

  predicate Sooner(a: Option<Time>, b: Option<Time>)
  {
    b.Some? && (a.None? || a.value < b.value)
  }

  function DueAt(steps: map<Key, StepRow>, k: Key): Option<Time>
  {
    if k in steps then steps[k].nextAttemptAt else None
  }

  /** `ORDER BY next_attempt_at_utc ASC, step_id ASC` */
  predicate QueuedBefore(steps: map<Key, StepRow>, a: Key, b: Key)
  {
    var x, y := DueAt(steps, a), DueAt(steps, b);
    Sooner(x, y) || (x == y && Text.Less(a.step, b.step))
  }

  /** Every queued step once, none before one it should follow; steps that tie come in any order. */
  ghost predicate IsQueue(db: Db, queue: seq<Key>)
  {
    && Elements(queue) == QueuedKeys(db) && Distinct(queue)
    && forall i, j :: 0 <= i < j < |queue| ==> !QueuedBefore(db.steps, queue[j], queue[i])
  }

  /** One way to settle ties. */
  predicate Settled(steps: map<Key, StepRow>, a: Key, b: Key)
  {
    QueuedBefore(steps, a, b) || (DueAt(steps, a) == DueAt(steps, b) && a.step == b.step && Text.Less(a.run, b.run))
  }

  predicate Holds(db: Db, lease: LeaseId, worker: string)
  {
    lease in db.leases && db.leases[lease].worker == worker && db.leases[lease].status == Active
  }

  predicate CanBeat(db: Db, lease: LeaseId, worker: string, now: Time)
  {
    Holds(db, lease, worker) && db.leases[lease].expiresAt > now
  }

  function Beat(db: Db, lease: LeaseId, worker: string, now: Time, expiresAt: Time): Db
  {
    if CanBeat(db, lease, worker, now)
    then db.(leases := db.leases[lease := db.leases[lease].(expiresAt := expiresAt)]) else db
  }

  function Finish(db: Db, lease: LeaseId, worker: string, output: Pointer): Db
  {
    if !Holds(db, lease, worker) then db
    else
      var k := db.leases[lease].key;
      Db(if k in db.steps then db.steps[k := db.steps[k].(status := Completed, output := Some(output))] else db.steps,
         db.leases[lease := db.leases[lease].(status := LeaseCompleted)])
  }

  /** A failed lease requeues the step while attempts remain; a missing step row changes nothing. */
  function Fail(db: Db, lease: LeaseId, worker: string, retryAt: Time): Db
  {
    if !Holds(db, lease, worker) || db.leases[lease].key !in db.steps then db
    else
      var k := db.leases[lease].key;
      var canRetry := db.steps[k].attempt < db.steps[k].maxAttempts;
      Db(db.steps[k := db.steps[k].(
           status := if canRetry then Queued else Failed,
           nextAttemptAt := if canRetry then Some(retryAt) else None)],
         db.leases[lease := db.leases[lease].(status := LeaseFailed)])
  }

  // ----- The coordinator object -----

  lemma QueueOrder(steps: map<Key, StepRow>)
    ensures StrictTotalOrder((a: Key, b: Key) => Settled(steps, a, b))
  {
    forall a: Key ensures !Settled(steps, a, a) {
      Text.LessIrreflexive(a.step);
      Text.LessIrreflexive(a.run);
    }
    forall a: Key, b: Key, c: Key | Settled(steps, a, b) && Settled(steps, b, c) ensures Settled(steps, a, c) {
      if Text.Less(a.step, b.step) && Text.Less(b.step, c.step) { Text.LessTransitive(a.step, b.step, c.step); }
      if Text.Less(a.run, b.run) && Text.Less(b.run, c.run) { Text.LessTransitive(a.run, b.run, c.run); }
    }
    forall a: Key, b: Key ensures a == b || Settled(steps, a, b) || Settled(steps, b, a) {
      Text.LessTotal(a.step, b.step);
      Text.LessTotal(a.run, b.run);
    }
  }

  lemma SettledIsQueue(db: Db, queue: seq<Key>)
    requires Elements(queue) == QueuedKeys(db) && Sorted(queue, (a, b) => Settled(db.steps, a, b))
    ensures IsQueue(db, queue)
  {
    QueueOrder(db.steps);
    forall i, j | 0 <= i < j < |queue| ensures !QueuedBefore(db.steps, queue[j], queue[i]) && queue[i] != queue[j] {
      var less := (a: Key, b: Key) => Settled(db.steps, a, b);
      assert less(queue[i], queue[j]) && !less(queue[i], queue[i]);
      assert !less(queue[j], queue[i]);
    }
  }

  class DistributedCoordinator {
    var steps: map<Key, StepRow>
    var leases: map<LeaseId, LeaseRow>

    ghost function Tables(): Db
      reads this
    {
      Db(steps, leases)
    }

    constructor ()
      ensures Tables() == Db(map[], map[])
    {
      steps, leases := map[], map[];
    }

    method EnqueueMacro(run: string, macroSteps: seq<M.Step>, maxAttempts: nat, now: Time)
      modifies this
      ensures Tables() == Enqueue(old(Tables()), run, macroSteps, maxAttempts, now)
    {
      for k := 0 to |macroSteps|
        invariant Tables() == Enqueue(old(Tables()), run, macroSteps[..k], maxAttempts, now)
      {
        assert macroSteps[..k + 1][..k] == macroSteps[..k];
        steps := steps[Key(run, macroSteps[k].stepId) := NewRow(macroSteps[k], maxAttempts, now)];
      }
      assert macroSteps[..|macroSteps|] == macroSteps;
    }

    method ExpireStaleLeases(now: Time)
      modifies this
      ensures Tables() == Expire(old(Tables()), now)
    {
      ghost var before := Tables();
      var rows := set l | l in leases && leases[l].status == Active && leases[l].expiresAt <= now;
      ghost var swept: set<LeaseId> := {};
      assert Tables() == Sweep(before, {}, now);
      while rows != {}
        invariant swept + rows == Stale(before, now) && swept !! rows
        invariant Tables() == Sweep(before, swept, now)
        decreases rows
      {
        var l :| l in rows;
        SweepOneMore(before, swept, l, now);
        leases := leases[l := leases[l].(status := Expired)];
        var k := leases[l].key;
        if k in steps && steps[k].status == Started {
          steps := steps[k := steps[k].(status := Queued, nextAttemptAt := Some(now))];
        }
        rows, swept := rows - {l}, swept + {l};
      }
      assert swept == Stale(before, now);
    }

    /** The SELECT over queued rows. */
    method SelectQueued() returns (rows: seq<Key>)
      ensures IsQueue(Tables(), rows) && forall k :: k in rows ==> k in steps
    {
      var selected := steps;
      QueueOrder(selected);
      rows := SortSet((set k | k in selected && selected[k].status == Queued), (a, b) => Settled(selected, a, b));
      assert forall k :: k in rows ==> k in Elements(rows);
      SettledIsQueue(Tables(), rows);
    }

    method ClaimRows(rows: seq<Key>, worker: string, capacity: nat, now: Time, tickets: seq<Ticket>)
        returns (claims: seq<Grant>)
      requires capacity <= |tickets| && forall k :: k in rows ==> k in steps
      modifies this
      ensures Claimed(Tables(), claims) == ClaimFrom(old(Tables()), rows, capacity, now, worker, tickets)
    {
      claims := [];
      var i := 0;
      ghost var goal := ClaimFrom(Tables(), rows, capacity, now, worker, tickets);
      while i < |rows| && |claims| < capacity
        invariant 0 <= i <= |rows| && |claims| <= capacity
        invariant forall k :: k in rows ==> k in steps
        invariant var rest := ClaimFrom(Tables(), rows[i..], capacity - |claims|, now, worker, tickets[|claims|..]);
                  goal == Claimed(rest.db, claims + rest.grants)
      {
        var k := rows[i];
        assert rows[i..][0] == k && rows[i..][1..] == rows[i + 1..];
        if Claimable(Db(steps, leases), k, now) {
          var t := tickets[|claims|];
          var attempt := steps[k].attempt + 1;
          assert tickets[|claims|..][0] == t && tickets[|claims|..][1..] == tickets[|claims| + 1..];
          leases := leases[t.id := LeaseRow(k, worker, attempt, t.expiresAt, Active)];
          steps := steps[k := steps[k].(status := Started, attempt := attempt)];
          claims := claims + [Grant(t.id, k, attempt, t.expiresAt)];
        }
        i := i + 1;
      }
      assert claims + [] == claims;
    }

    method ClaimWork(worker: string, capacity: int, now: Time, tickets: seq<Ticket>)
        returns (claims: seq<Grant>, ghost queue: seq<Key>)
      requires capacity <= |tickets|
      modifies this
      ensures capacity <= 0 ==> claims == [] && Tables() == old(Tables())
      ensures capacity > 0 ==>
        var swept := Expire(old(Tables()), now);
        && IsQueue(swept, queue) && (forall k :: k in queue ==> k in swept.steps)
        && Claimed(Tables(), claims) == ClaimFrom(swept, queue, capacity, now, worker, tickets)
    {
      claims, queue := [], [];
      if capacity > 0 {
        ExpireStaleLeases(now);
        var rows := SelectQueued();
        queue := rows;
        claims := ClaimRows(rows, worker, capacity, now, tickets);
      }
    }

    method Heartbeat(lease: LeaseId, worker: string, now: Time, expiresAt: Time) returns (ok: bool)
      modifies this
      ensures ok == CanBeat(old(Tables()), lease, worker, now)
      ensures Tables() == Beat(old(Tables()), lease, worker, now, expiresAt)
    {
      if lease !in leases {
        return false;
      }
      var row := leases[lease];
      if row.worker != worker || row.status != Active || row.expiresAt <= now {
        return false;
      }
      leases := leases[lease := row.(expiresAt := expiresAt)];
      ok := true;
    }

    method CompleteLease(lease: LeaseId, worker: string, output: Pointer) returns (ok: bool)
      modifies this
      ensures ok == Holds(old(Tables()), lease, worker)
      ensures Tables() == Finish(old(Tables()), lease, worker, output)
    {
      if lease !in leases {
        return false;
      }
      var row := leases[lease];
      if row.worker != worker || row.status != Active {
        return false;
      }
      leases := leases[lease := row.(status := LeaseCompleted)];
      if row.key in steps {
        steps := steps[row.key := steps[row.key].(status := Completed, output := Some(output))];
      }
      ok := true;
    }

    method FailLease(lease: LeaseId, worker: string, now: Time, retryDelay: Time) returns (ok: bool)
      modifies this
      ensures ok == (Holds(old(Tables()), lease, worker) && old(leases)[lease].key in old(steps))
      ensures Tables() == Fail(old(Tables()), lease, worker, now + if retryDelay > 0 then retryDelay else 0)
      ensures ok ==>
        var row := old(steps)[old(leases)[lease].key];
        && old(leases)[lease].key in steps && lease in leases && leases[lease].status == LeaseFailed
        && steps[old(leases)[lease].key].status == if row.attempt < row.maxAttempts then Queued else Failed
    {
      if lease !in leases {
        return false;
      }
      var row := leases[lease];
      if row.worker != worker || row.status != Active {
        return false;
      }
      if row.key !in steps {
        return false;
      }
      var step := steps[row.key];
      var canRetry := step.attempt < step.maxAttempts;
      leases := leases[lease := row.(status := LeaseFailed)];
      steps := steps[row.key := step.(
        status := if canRetry then Queued else Failed,
        nextAttemptAt := if canRetry then Some(now + if retryDelay > 0 then retryDelay else 0) else None)];
      ok := true;
    }
  }

  lemma SweepOneMore(db: Db, swept: set<LeaseId>, l: LeaseId, now: Time)
    requires swept <= db.leases.Keys && l in db.leases && l !in swept
    ensures var some, more := Sweep(db, swept, now), Sweep(db, swept + {l}, now);
            var k := db.leases[l].key;
            && more.leases == some.leases[l := some.leases[l].(status := Expired)]
            && more.steps == if k in some.steps && some.steps[k].status == Started
                             then some.steps[k := some.steps[k].(status := Queued, nextAttemptAt := Some(now))]
                             else some.steps
  {
  }
}
