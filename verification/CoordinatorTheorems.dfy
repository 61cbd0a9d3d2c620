/** What the lease protocol guarantees over every run from empty tables. */
module CoordinatorTheorems {
  import opened Sorting
  import opened Graph
  import opened Coordinator
  import opened CoordinatorRuns

  // ----- Lease safety -----

  /** A step is started exactly when it has an active lease, and it never has two. */
  lemma LeaseExclusion(dbs: seq<Db>, events: seq<Event>, n: nat, k: Key)
    requires IsRun(dbs, events) && n < |dbs| && k in dbs[n].steps
    ensures dbs[n].steps[k].status == Started <==> With(dbs[n], k, Active) != {}
    ensures forall a, b :: a in With(dbs[n], k, Active) && b in With(dbs[n], k, Active) ==> a == b
  {
    RunInv(dbs, events, n);
    var db := dbs[n];
    assert StepInv(db, k);
    forall a, b | a in With(db, k, Active) && b in With(db, k, Active) ensures a == b {
      var rest := With(db, k, Active) - {a};
      assert |rest| == 0;
      assert b !in rest;
    }
  }

  ghost predicate Final(row: StepRow)
  {
    row.status == Completed || row.status == Failed
  }

  /** No change touches the row of a completed or failed step, or a lease that is no longer active. */
  lemma FinalKept(db: Db, e: Event)
    requires Inv(db) && Enabled(db, e)
    ensures forall k :: k in db.steps && Final(db.steps[k]) ==>
      k in Apply(db, e).steps && Apply(db, e).steps[k] == db.steps[k]
  {
    match e
    case Enqueueing(run, steps, maxAttempts, now) => EnqueuedRows(db, run, steps, maxAttempts, now);
    case Finishing(lease, worker, _) => HolderIsStarted(db, lease, worker);
    case Failing(lease, worker, _) => HolderIsStarted(db, lease, worker);
    case _ =>
  }

  lemma DeadLeaseKept(db: Db, e: Event, l: LeaseId)
    requires Enabled(db, e) && l in db.leases && db.leases[l].status != Active
    ensures l in Apply(db, e).leases && Apply(db, e).leases[l] == db.leases[l]
  {
    if e.Enqueueing? {
      EnqueuedRows(db, e.run, e.steps, e.maxAttempts, e.now);
    }
  }

  lemma HolderIsStarted(db: Db, lease: LeaseId, worker: string)
    requires Inv(db)
    ensures Holds(db, lease, worker) ==>
      db.leases[lease].key in db.steps && db.steps[db.leases[lease].key].status == Started
  {
    if Holds(db, lease, worker) {
      var k := db.leases[lease].key;
      assert StepInv(db, k) && lease in With(db, k, Active);
    }
  }

  /** `completed` and `failed` are absorbing, and the output pointer is written once. */
  lemma {:induction false} OutcomesAreFinal(dbs: seq<Db>, events: seq<Event>, i: nat, j: nat, k: Key)
    requires IsRun(dbs, events) && i <= j < |dbs| && k in dbs[i].steps && Final(dbs[i].steps[k])
    ensures k in dbs[j].steps && dbs[j].steps[k] == dbs[i].steps[k]
    decreases j
  {
    if i < j {
      OutcomesAreFinal(dbs, events, i, j - 1, k);
      RunInv(dbs, events, j - 1);
      assert StepAt(dbs, events, j - 1);
      FinalKept(dbs[j - 1], events[j - 1]);
    }
  }

  /**
    A worker whose lease was swept, completed or failed has no power left: the lease stays
    as it is for ever, and no call with it changes anything, whoever holds the step by then.
   */
  lemma {:induction false} DeadLeasesStayDead(dbs: seq<Db>, events: seq<Event>, i: nat, j: nat, l: LeaseId)
    requires IsRun(dbs, events) && i <= j < |dbs| && l in dbs[i].leases && dbs[i].leases[l].status != Active
    ensures l in dbs[j].leases && dbs[j].leases[l] == dbs[i].leases[l]
    ensures forall worker, now, expiresAt :: Beat(dbs[j], l, worker, now, expiresAt) == dbs[j]
    ensures forall worker, output :: Finish(dbs[j], l, worker, output) == dbs[j]
    ensures forall worker, retryAt :: Fail(dbs[j], l, worker, retryAt) == dbs[j]
    decreases j
  {
    if i < j {
      DeadLeasesStayDead(dbs, events, i, j - 1, l);
      assert StepAt(dbs, events, j - 1);
      DeadLeaseKept(dbs[j - 1], events[j - 1], l);
    }
  }

  // ----- Attempt accounting -----

  /** Attempts count leases; failures stay within the limit; only expirations can push attempts past it. */
  lemma AttemptAccounting(dbs: seq<Db>, events: seq<Event>, n: nat, k: Key)
    requires IsRun(dbs, events) && n < |dbs| && k in dbs[n].steps
    ensures dbs[n].steps[k].attempt == |Of(dbs[n], k)|
    ensures |With(dbs[n], k, LeaseFailed)| <= dbs[n].steps[k].maxAttempts
    ensures dbs[n].steps[k].attempt <= dbs[n].steps[k].maxAttempts + |With(dbs[n], k, Expired)|
  {
    RunInv(dbs, events, n);
    assert StepInv(dbs[n], k);
    LeasesAddUp(dbs[n], k);
  }

  ghost function Issued(db: Db, keys: seq<Key>): set<LeaseId>
  {
    set l | l in db.leases && db.leases[l].key in keys
  }

  ghost function Lapsed(db: Db, keys: seq<Key>): set<LeaseId>
  {
    set l | l in db.leases && db.leases[l].key in keys && db.leases[l].status == Expired
  }

  ghost function Allowance(db: Db, keys: seq<Key>): nat
    requires forall k :: k in keys ==> k in db.steps
  {
    if keys == [] then 0 else db.steps[keys[0]].maxAttempts + Allowance(db, keys[1..])
  }

  /** Claims on any set of steps, a whole run's among them, are bounded by their limits plus their expirations. */
  lemma {:induction false} ClaimsBounded(dbs: seq<Db>, events: seq<Event>, n: nat, keys: seq<Key>)
    requires IsRun(dbs, events) && n < |dbs| && (forall k :: k in keys ==> k in dbs[n].steps)
    requires forall i, j :: 0 <= i < j < |keys| ==> keys[i] != keys[j]
    ensures |Issued(dbs[n], keys)| <= Allowance(dbs[n], keys) + |Lapsed(dbs[n], keys)|
  {
    var db := dbs[n];
    if keys == [] {
      assert Issued(db, keys) == {};
    } else {
      var k, rest := keys[0], keys[1..];
      AttemptAccounting(dbs, events, n, k);
      ClaimsBounded(dbs, events, n, rest);
      assert k !in rest && keys == [k] + rest;
      assert Issued(db, keys) == Of(db, k) + Issued(db, rest) && Of(db, k) !! Issued(db, rest);
      assert Lapsed(db, keys) == With(db, k, Expired) + Lapsed(db, rest) && With(db, k, Expired) !! Lapsed(db, rest);
    }
  }

  // ----- Dependency safety -----

  ghost predicate DependsOn(db: Db, a: Key, b: Key)
  {
    a in db.steps && b.run == a.run && b.step in db.steps[a].dependsOn
  }

  /** A chain of dependencies leading away from its first step. */
  ghost predicate Chain(db: Db, p: seq<Key>)
  {
    p != [] && forall i :: 0 <= i < |p| - 1 ==> DependsOn(db, p[i], p[i + 1])
  }

  /** A claimed step has every step up its dependency chains completed with a pointer. */
  lemma {:induction false} AncestorsCompleted(db: Db, p: seq<Key>, i: nat)
    requires Inv(db) && Chain(db, p) && 0 < i < |p| && p[0] in db.steps && db.steps[p[0]].attempt >= 1
    ensures HasPointer(db, p[i]) && db.steps[p[i]].attempt >= 1
  {
    if i > 1 {
      AncestorsCompleted(db, p, i - 1);
    }
    assert DependsOn(db, p[i - 1], p[i]);
    assert StepInv(db, p[i - 1]);
    assert HasPointer(db, p[i]);
    assert StepInv(db, p[i]);
    LeasesAddUp(db, p[i]);
  }

  /** No transitive dependent of a failed, unfinished or missing step is ever claimed. */
  lemma DependencySafety(dbs: seq<Db>, events: seq<Event>, n: nat, p: seq<Key>)
    requires IsRun(dbs, events) && n < |dbs| && Chain(dbs[n], p) && |p| >= 2 && !HasPointer(dbs[n], p[|p| - 1])
    ensures p[0] in dbs[n].steps && dbs[n].steps[p[0]].attempt == 0
  {
    RunInv(dbs, events, n);
    assert DependsOn(dbs[n], p[0], p[1]);
    if dbs[n].steps[p[0]].attempt >= 1 {
      AncestorsCompleted(dbs[n], p, |p| - 1);
    }
  }

  ghost predicate Circular(db: Db, p: seq<Key>)
  {
    |p| >= 2 && Chain(db, p) && p[0] == p[|p| - 1]
  }

  ghost predicate UnclaimedCycles(db: Db)
  {
    forall p, i :: Circular(db, p) && 0 <= i < |p| && p[i] in db.steps ==> db.steps[p[i]].attempt == 0
  }

  lemma RowsKept(db: Db, e: Event, k: Key)
    requires Inv(db) && Enabled(db, e) && k in Apply(db, e).steps
    ensures k in db.steps ==> Apply(db, e).steps[k].dependsOn == db.steps[k].dependsOn
    ensures k in db.steps ==>
      Apply(db, e).steps[k].attempt == db.steps[k].attempt + if e.Grabbing? && e.key == k then 1 else 0
    ensures k !in db.steps ==> e.Enqueueing? && k.run == e.run && Apply(db, e).steps[k].attempt == 0
  {
    match e
    case Enqueueing(run, steps, maxAttempts, now) => EnqueuedRows(db, run, steps, maxAttempts, now);
    case Sweeping(now) => SweptRow(db, now, k);
    case Grabbing(_, _, _, _) =>
    case Beating(_, _, _, _) =>
    case Finishing(_, _, _) =>
    case Failing(_, _, _) =>
  }

  lemma SweptRow(db: Db, now: Time, k: Key)
    ensures k in Expire(db, now).steps <==> k in db.steps
    ensures k in db.steps ==> Expire(db, now).steps[k].dependsOn == db.steps[k].dependsOn
    ensures k in db.steps ==> Expire(db, now).steps[k].attempt == db.steps[k].attempt
  {
  }

  lemma ChainRun(db: Db, p: seq<Key>, i: nat)
    requires Chain(db, p) && i < |p|
    ensures p[i].run == p[0].run && (i < |p| - 1 ==> p[i] in db.steps)
  {
    if i < |p| - 1 {
      assert DependsOn(db, p[i], p[i + 1]);
    }
    if i > 0 {
      ChainRun(db, p, i - 1);
      assert DependsOn(db, p[i - 1], p[i]);
    }
  }

  /** Every member of a cycle depends on another member. */
  lemma NextOnCycle(db: Db, p: seq<Key>, i: nat) returns (j: nat)
    requires Circular(db, p) && i < |p|
    ensures j < |p| && DependsOn(db, p[i], p[j])
  {
    j := if i < |p| - 1 then i + 1 else 1;
    assert DependsOn(db, p[j - 1], p[j]);
  }

  lemma CyclesStayUnclaimed(db: Db, e: Event)
    requires Inv(db) && UnclaimedCycles(db) && Enabled(db, e)
    ensures UnclaimedCycles(Apply(db, e))
  {
    var db' := Apply(db, e);
    forall p: seq<Key>, i | Circular(db', p) && 0 <= i < |p| && p[i] in db'.steps ensures db'.steps[p[i]].attempt == 0 {
      RowsKept(db, e, p[i]);
      if e.Enqueueing? && p[0].run == e.run {
        EnqueuedRows(db, e.run, e.steps, e.maxAttempts, e.now);
        ChainRun(db', p, i);
      } else {
        CycleWasThere(db, e, p);
        if e.Grabbing? && e.key == p[i] {
          var j := NextOnCycle(db, p, i);
          assert HasPointer(db, p[j]) by { assert p[j] == Key(p[i].run, p[j].step); }
          assert StepInv(db, p[j]);
          LeasesAddUp(db, p[j]);
        }
      }
    }
  }

  lemma CycleWasThere(db: Db, e: Event, p: seq<Key>)
    requires Inv(db) && Enabled(db, e) && Circular(Apply(db, e), p) && !(e.Enqueueing? && p[0].run == e.run)
    ensures Circular(db, p)
  {
    var db' := Apply(db, e);
    forall i | 0 <= i < |p| - 1 ensures DependsOn(db, p[i], p[i + 1]) {
      assert DependsOn(db', p[i], p[i + 1]);
      ChainRun(db', p, i);
      RowsKept(db, e, p[i]);
    }
  }

  /** No step on a dependency cycle is ever claimed. */
  lemma {:induction false} CyclesNeverClaimed(dbs: seq<Db>, events: seq<Event>, n: nat)
    requires IsRun(dbs, events) && n < |dbs|
    ensures UnclaimedCycles(dbs[n])
  {
    if n > 0 {
      CyclesNeverClaimed(dbs, events, n - 1);
      RunInv(dbs, events, n - 1);
      assert StepAt(dbs, events, n - 1);
      CyclesStayUnclaimed(dbs[n - 1], events[n - 1]);
    }
  }

  // ----- No stall -----

  ghost function StepsOf(db: Db, run: string): set<string>
  {
    set k | k in db.steps && k.run == run :: k.step
  }

  /** The dependency edges of one run, from dependency to dependent. */
  ghost function RunGraph(db: Db, run: string): Adjacency
  {
    map d | d in StepsOf(db, run) ::
      set x | x in StepsOf(db, run) && Key(run, x) in db.steps && d in db.steps[Key(run, x)].dependsOn
  }

  /** A failed step lies up some dependency chain. */
  ghost predicate Doomed(db: Db, k: Key)
  {
    exists p :: Chain(db, p) && |p| >= 2 && p[0] == k && FailedIn(db, p[|p| - 1])
  }

  ghost predicate FailedIn(db: Db, k: Key)
  {
    k in db.steps && db.steps[k].status == Failed
  }

  /** No lease is live, backoffs have elapsed, and every dependency and pointer is in order. */
  ghost predicate Quiescent(db: Db, now: Time)
  {
    && (forall k :: k in db.steps ==> db.steps[k].status != Started)
    && (forall k :: k in db.steps && db.steps[k].status == Queued && db.steps[k].nextAttemptAt.Some? ==>
      db.steps[k].nextAttemptAt.value <= now)
    && (forall k, d :: k in db.steps && d in db.steps[k].dependsOn ==> Key(k.run, d) in db.steps)
    && (forall k :: k in db.steps && db.steps[k].status == Completed ==> HasPointer(db, k))
    && (forall run :: Acyclic(RunGraph(db, run)))
  }

  lemma {:induction false} NothingGranted(
      db: Db, queue: seq<Key>, capacity: nat, now: Time, worker: string, tickets: seq<Ticket>)
    requires |tickets| >= capacity >= 1 && forall k :: k in queue ==> k in db.steps
    ensures ClaimFrom(db, queue, capacity, now, worker, tickets).grants == [] <==>
      forall k :: k in queue ==> !Claimable(db, k, now)
    decreases |queue|
  {
    if queue != [] {
      assert queue[0] in queue && forall k :: k in queue <==> k == queue[0] || k in queue[1..];
      if !Claimable(db, queue[0], now) {
        NothingGranted(db, queue[1..], capacity, now, worker, tickets);
      }
    }
  }

  lemma DoomedStep(db: Db, k: Key, d: Key)
    requires DependsOn(db, k, d) && (FailedIn(db, d) || Doomed(db, d))
    ensures Doomed(db, k)
  {
    var p := [d];
    if !FailedIn(db, d) {
      p :| Chain(db, p) && |p| >= 2 && p[0] == d && FailedIn(db, p[|p| - 1]);
    }
    var q := [k] + p;
    forall i | 0 <= i < |q| - 1 ensures DependsOn(db, q[i], q[i + 1]) {
      assert i > 0 ==> q[i] == p[i - 1] && q[i + 1] == p[i];
    }
    assert Chain(db, q) && q[|q| - 1] == p[|p| - 1];
  }

  /** Walking up from a queued step that cannot be claimed ends at a failed one. */
  lemma {:induction false} StuckIsDoomed(db: Db, now: Time, run: string, order: seq<Id>, i: nat)
    requires Quiescent(db, now) && Topological(RunGraph(db, run), order) && i < |order|
    requires forall k :: k in QueuedKeys(db) ==> !Claimable(db, k, now)
    requires Key(run, order[i]) in QueuedKeys(db)
    ensures Doomed(db, Key(run, order[i]))
    decreases i
  {
    var k := Key(run, order[i]);
    var d :| d in db.steps[k].dependsOn && !HasPointer(db, Key(run, d));
    var dk := Key(run, d);
    assert dk in db.steps && DependsOn(db, k, dk);
    if db.steps[dk].status == Queued {
      assert d in StepsOf(db, run) && order[i] in StepsOf(db, run) by { assert k.step == order[i]; }
      assert d in Elements(order);
      var j :| 0 <= j < |order| && order[j] == d;
      assert Edge(RunGraph(db, run), order[j], order[i]);
      StuckIsDoomed(db, now, run, order, j);
    }
    DoomedStep(db, k, dk);
  }

  lemma DoomedIsStuck(db: Db, now: Time, k: Key)
    requires Inv(db) && k in db.steps && Doomed(db, k)
    ensures !Claimable(db, k, now)
  {
    var p: seq<Key> :| Chain(db, p) && |p| >= 2 && p[0] == k && FailedIn(db, p[|p| - 1]);
    assert DependsOn(db, p[0], p[1]);
    if Claimable(db, k, now) {
      assert p[1] == Key(k.run, p[1].step);
      assert HasPointer(db, p[1]) && StepInv(db, p[1]);
      LeasesAddUp(db, p[1]);
      if |p| > 2 {
        ChainTail(db, p);
        AncestorsCompleted(db, p[1..], |p| - 2);
      }
    }
  }

  lemma ChainTail(db: Db, p: seq<Key>)
    requires Chain(db, p) && |p| >= 2
    ensures Chain(db, p[1..])
  {
    forall i | 0 <= i < |p[1..]| - 1 ensures DependsOn(db, p[1..][i], p[1..][i + 1]) {
      assert DependsOn(db, p[i + 1], p[i + 2]);
    }
  }

  lemma QuiescentQueue(db: Db, now: Time, k: Key)
    requires Quiescent(db, now) && k in QueuedKeys(db) && forall x :: x in QueuedKeys(db) ==> !Claimable(db, x, now)
    ensures Doomed(db, k)
  {
    var adj := RunGraph(db, k.run);
    assert WellFormed(adj) && adj.Keys == StepsOf(db, k.run);
    assert Acyclic(RunGraph(db, k.run));
    GreedyCompleteIffAcyclic(adj);
    var order := Greedy(adj, adj.Keys);
    assert k.step in StepsOf(db, k.run);
    assert k.step in Elements(order);
    var i :| 0 <= i < |order| && order[i] == k.step;
    assert k == Key(k.run, order[i]);
    StuckIsDoomed(db, now, k.run, order, i);
  }

  /**
    When nothing is in flight and no backoff is pending, a claim with any capacity comes back
    empty exactly when every queued step has a failed transitive ancestor.
   */
  lemma ClaimStallsIffAllDoomed(db: Db, now: Time, queue: seq<Key>, capacity: nat, worker: string, tickets: seq<Ticket>)
    requires Inv(db) && Quiescent(Expire(db, now), now) && IsQueue(Expire(db, now), queue) && |tickets| >= capacity >= 1
    ensures forall k :: k in queue ==> k in Expire(db, now).steps
    ensures ClaimFrom(Expire(db, now), queue, capacity, now, worker, tickets).grants == []
       <==> forall k :: k in QueuedKeys(Expire(db, now)) ==> Doomed(Expire(db, now), k)
  {
    var swept := Expire(db, now);
    SweepKeepsInv(db, Stale(db, now), now);
    assert forall k :: k in queue <==> k in Elements(queue);
    NothingGranted(swept, queue, capacity, now, worker, tickets);
    if forall k :: k in queue ==> !Claimable(swept, k, now) {
      forall k | k in QueuedKeys(swept) ensures Doomed(swept, k) {
        QuiescentQueue(swept, now, k);
      }
    }
    if forall k :: k in QueuedKeys(swept) ==> Doomed(swept, k) {
      forall k | k in queue ensures !Claimable(swept, k, now) {
        assert k in QueuedKeys(swept);
        DoomedIsStuck(swept, now, k);
      }
    }
  }

  /** The rows a claim selects are queued and distinct, so it never takes a step twice. */
  lemma QueueIsFresh(db: Db, queue: seq<Key>)
    requires IsQueue(db, queue)
    ensures QueueFresh(db, queue)
  {
    forall i | 0 <= i < |queue| ensures queue[i] in QueuedKeys(db) {
      assert queue[i] in Elements(queue);
    }
  }

  // ----- What a claim takes -----

  /** A whole claim, sweep included, is a stretch of a run. */
  lemma ClaimWorkIsPath(db: Db, queue: seq<Key>, capacity: nat, now: Time, worker: string, tickets: seq<Ticket>)
      returns (dbs: seq<Db>, events: seq<Event>)
    requires |tickets| >= capacity && TicketsFresh(db, tickets) && IsQueue(Expire(db, now), queue)
    ensures forall k :: k in queue ==> k in Expire(db, now).steps
    ensures IsPath(dbs, events) && dbs[0] == db
    ensures dbs[|events|] == ClaimFrom(Expire(db, now), queue, capacity, now, worker, tickets).db
  {
    QueueIsFresh(Expire(db, now), queue);
    var ds, es := ClaimIsPath(Expire(db, now), queue, capacity, now, worker, tickets);
    PathPrepend(db, Sweeping(now), ds, es);
    dbs, events := [db] + ds, [Sweeping(now)] + es;
  }

  /** The claimable steps of the queue, in its order. */
  ghost function Eligible(db: Db, queue: seq<Key>, now: Time): (r: seq<Key>)
    requires forall k :: k in queue ==> k in db.steps
    ensures forall k :: k in r ==> k in queue
    decreases |queue|
  {
    if queue == [] then []
    else (if Claimable(db, queue[0], now) then [queue[0]] else []) + Eligible(db, queue[1..], now)
  }

  lemma GrabLeavesOthers(db: Db, k: Key, worker: string, t: Ticket, x: Key, now: Time)
    requires k in db.steps && x in db.steps && x != k && db.steps[k].status == Queued
    ensures Claimable(Grab(db, k, worker, t), x, now) <==> Claimable(db, x, now)
  {
    var db' := Grab(db, k, worker, t);
    forall d ensures HasPointer(db', Key(x.run, d)) <==> HasPointer(db, Key(x.run, d)) {
    }
  }

  lemma {:induction false} EligibleAfterGrab(db: Db, k: Key, worker: string, t: Ticket, queue: seq<Key>, now: Time)
    requires k in db.steps && db.steps[k].status == Queued && k !in queue && forall x :: x in queue ==> x in db.steps
    ensures forall x :: x in queue ==> x in Grab(db, k, worker, t).steps
    ensures Eligible(Grab(db, k, worker, t), queue, now) == Eligible(db, queue, now)
    decreases |queue|
  {
    if queue != [] {
      GrabLeavesOthers(db, k, worker, t, queue[0], now);
      EligibleAfterGrab(db, k, worker, t, queue[1..], now);
    }
  }

  /** The grants are for the first of these steps, each one attempt further and with its own ticket. */
  ghost predicate Granted(db: Db, grants: seq<Grant>, keys: seq<Key>, tickets: seq<Ticket>)
  {
    && |grants| <= |keys| && |grants| <= |tickets|
    && forall i :: 0 <= i < |grants| ==>
      && keys[i] in db.steps
      && grants[i] == Grant(tickets[i].id, keys[i], db.steps[keys[i]].attempt + 1, tickets[i].expiresAt)
  }

  lemma GrantedFirst(db: Db, k: Key, worker: string, grants: seq<Grant>, keys: seq<Key>, tickets: seq<Ticket>)
    requires k in db.steps && k !in keys && tickets != []
    requires Granted(Grab(db, k, worker, tickets[0]), grants, keys, tickets[1..])
    ensures var first := Grant(tickets[0].id, k, db.steps[k].attempt + 1, tickets[0].expiresAt);
      Granted(db, [first] + grants, [k] + keys, tickets)
  {
    var db' := Grab(db, k, worker, tickets[0]);
    forall i | 0 <= i < |grants| ensures keys[i] in db.steps && db'.steps[keys[i]] == db.steps[keys[i]] {
      assert keys[i] in keys;
    }
  }

  /** A claim grants the first claimable steps of the queue, as many as the capacity allows. */
  lemma {:induction false} ClaimTakesFirstEligible(
      db: Db, queue: seq<Key>, capacity: nat, now: Time, worker: string, tickets: seq<Ticket>)
    requires |tickets| >= capacity && QueueFresh(db, queue) && forall k :: k in queue ==> k in db.steps
    ensures
      var grants := ClaimFrom(db, queue, capacity, now, worker, tickets).grants;
      var eligible := Eligible(db, queue, now);
      && |grants| == (if |eligible| < capacity then |eligible| else capacity)
      && Granted(db, grants, eligible, tickets)
    decreases |queue|
  {
    if queue != [] && capacity > 0 {
      var k, t, rest := queue[0], tickets[0], queue[1..];
      assert QueueFresh(db, rest) && k !in rest;
      if Claimable(db, k, now) {
        var db' := Grab(db, k, worker, t);
        EligibleAfterGrab(db, k, worker, t, rest, now);
        assert QueueFresh(db', rest);
        ClaimTakesFirstEligible(db', rest, capacity - 1, now, worker, tickets[1..]);
        var more := ClaimFrom(db', rest, capacity - 1, now, worker, tickets[1..]).grants;
        GrantedFirst(db, k, worker, more, Eligible(db, rest, now), tickets);
      } else {
        ClaimTakesFirstEligible(db, rest, capacity, now, worker, tickets);
      }
    }
  }
}
