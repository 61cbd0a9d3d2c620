/** Invariants of the coordinator's tables over whole runs. */
module CoordinatorRuns {
  import opened Sorting
  import opened Graph
  import opened Coordinator
  import M = Macro

  // ----- Leases of one step -----

  ghost function Of(db: Db, k: Key): set<LeaseId>
  {
    set l | l in db.leases && db.leases[l].key == k
  }

  ghost function With(db: Db, k: Key, status: LeaseStatus): set<LeaseId>
  {
    set l | l in db.leases && db.leases[l].key == k && db.leases[l].status == status
  }

  lemma FourParts(a: set<LeaseId>, e: set<LeaseId>, c: set<LeaseId>, f: set<LeaseId>)
    requires a !! e && a !! c && a !! f && e !! c && e !! f && c !! f
    ensures |a + e + c + f| == |a| + |e| + |c| + |f|
  {
    assert |a + e| == |a| + |e| && |a + e + c| == |a + e| + |c|;
  }

  lemma SetsEqual(a: set<LeaseId>, b: set<LeaseId>)
    requires forall l :: l in a <==> l in b
    ensures a == b
  {
  }

  /** Every lease ever issued for a step is active, expired, completed or failed. */
  lemma LeasesAddUp(db: Db, k: Key)
    ensures |Of(db, k)| == |With(db, k, Active)| + |With(db, k, Expired)| + |With(db, k, LeaseCompleted)|
      + |With(db, k, LeaseFailed)|
  {
    var a, e, c, f := With(db, k, Active), With(db, k, Expired), With(db, k, LeaseCompleted), With(db, k, LeaseFailed);
    FourParts(a, e, c, f);
    SetsEqual(Of(db, k), a + e + c + f);
  }

  // ----- The invariant -----

  ghost predicate DependenciesMet(db: Db, k: Key)
    requires k in db.steps
  {
    forall d :: d in db.steps[k].dependsOn ==> HasPointer(db, Key(k.run, d))
  }

  ghost predicate StepInv(db: Db, k: Key)
    requires k in db.steps
  {
    var row := db.steps[k];
    && row.maxAttempts >= 1
    && row.attempt == |Of(db, k)|
    && |With(db, k, Active)| == (if row.status == Started then 1 else 0)
    && |With(db, k, LeaseCompleted)| == (if row.status == Completed then 1 else 0)
    && |With(db, k, LeaseFailed)| <= (if row.status == Failed then row.maxAttempts else row.maxAttempts - 1)
    && (row.status == Failed ==> |With(db, k, LeaseFailed)| >= 1 && row.attempt >= row.maxAttempts)
    && (row.attempt >= 1 ==> DependenciesMet(db, k))
  }

  ghost predicate Inv(db: Db)
  {
    && (forall l :: l in db.leases ==> db.leases[l].key in db.steps)
    && (forall k :: k in db.steps ==> StepInv(db, k))
  }

  // ----- Steps other than the one touched -----

  ghost predicate SameLeases(db: Db, db': Db, k: Key)
  {
    Of(db, k) == Of(db', k) && forall s: LeaseStatus :: With(db, k, s) == With(db', k, s)
  }

  /** Steps with a pointer keep it. */
  ghost predicate KeepsPointers(db: Db, db': Db)
  {
    forall k :: HasPointer(db, k) ==> HasPointer(db', k)
  }

  lemma StepKept(db: Db, db': Db, k: Key)
    requires k in db.steps && k in db'.steps && db'.steps[k] == db.steps[k]
    requires StepInv(db, k) && SameLeases(db, db', k) && KeepsPointers(db, db')
    ensures StepInv(db', k)
  {
    assert forall s: LeaseStatus :: With(db, k, s) == With(db', k, s);
  }

  /** One lease of `k` changes its status; every other lease is left alone. */
  ghost predicate Resolves(db: Db, db': Db, l: LeaseId, to: LeaseStatus)
  {
    && l in db.leases && db.leases[l].status == Active && to != Active
    && db'.leases == db.leases[l := db.leases[l].(status := to)]
  }

  lemma ResolvedLeases(db: Db, db': Db, l: LeaseId, to: LeaseStatus)
    requires Resolves(db, db', l, to)
    ensures var k := db.leases[l].key;
            && Of(db', k) == Of(db, k)
            && With(db', k, Active) == With(db, k, Active) - {l} && l in With(db, k, Active)
            && With(db', k, to) == With(db, k, to) + {l} && l !in With(db, k, to)
            && (forall s :: s != Active && s != to ==> With(db', k, s) == With(db, k, s))
    ensures forall k :: k != db.leases[l].key ==> SameLeases(db, db', k)
  {
  }

  lemma ResolvedCounts(db: Db, db': Db, l: LeaseId, to: LeaseStatus)
    requires Resolves(db, db', l, to)
    ensures var k := db.leases[l].key;
            && |Of(db', k)| == |Of(db, k)|
            && |With(db', k, Active)| == |With(db, k, Active)| - 1
            && |With(db', k, to)| == |With(db, k, to)| + 1
            && (forall s :: s != Active && s != to ==> |With(db', k, s)| == |With(db, k, s)|)
  {
    ResolvedLeases(db, db', l, to);
  }

  /** Only the row of `k` and its leases changed. */
  ghost predicate OthersSame(db: Db, db': Db, k: Key)
  {
    && db'.steps.Keys == db.steps.Keys && (forall x :: x in db.steps && x != k ==> db'.steps[x] == db.steps[x])
    && (forall x :: x != k ==> SameLeases(db, db', x)) && KeepsPointers(db, db')
  }

  lemma OthersKept(db: Db, db': Db, k: Key)
    requires Inv(db) && OthersSame(db, db', k) && k in db'.steps && StepInv(db', k)
    requires forall l :: l in db'.leases ==> db'.leases[l].key in db'.steps
    ensures Inv(db')
  {
    forall x | x in db'.steps && x != k ensures StepInv(db', x) {
      assert StepInv(db, x) && SameLeases(db, db', x);
      StepKept(db, db', x);
    }
  }

  /** The step of a held lease is started and has no other active lease. */
  lemma HeldStep(db: Db, lease: LeaseId, worker: string)
    requires Inv(db) && Holds(db, lease, worker)
    ensures var k := db.leases[lease].key; k in db.steps && StepInv(db, k) && db.steps[k].status == Started
  {
    var k := db.leases[lease].key;
    assert StepInv(db, k) && lease in With(db, k, Active);
  }

  lemma FinishedStep(db: Db, lease: LeaseId, worker: string, output: Pointer)
    requires Inv(db) && Holds(db, lease, worker)
    ensures db.leases[lease].key in Finish(db, lease, worker, output).steps
    ensures StepInv(Finish(db, lease, worker, output), db.leases[lease].key)
  {
    HeldStep(db, lease, worker);
    ResolvedCounts(db, Finish(db, lease, worker, output), lease, LeaseCompleted);
  }

  lemma FinishOthersSame(db: Db, lease: LeaseId, worker: string, output: Pointer)
    requires Holds(db, lease, worker) && HeldByStarted(db, lease)
    ensures OthersSame(db, Finish(db, lease, worker, output), db.leases[lease].key)
  {
    ResolvedLeases(db, Finish(db, lease, worker, output), lease, LeaseCompleted);
  }

  ghost predicate HeldByStarted(db: Db, lease: LeaseId)
  {
    lease in db.leases && db.leases[lease].key in db.steps && db.steps[db.leases[lease].key].status == Started
  }

  lemma FailOthersSame(db: Db, lease: LeaseId, worker: string, retryAt: Time)
    requires Holds(db, lease, worker) && HeldByStarted(db, lease)
    ensures OthersSame(db, Fail(db, lease, worker, retryAt), db.leases[lease].key)
  {
    ResolvedLeases(db, Fail(db, lease, worker, retryAt), lease, LeaseFailed);
  }

  lemma FinishKeepsInv(db: Db, lease: LeaseId, worker: string, output: Pointer)
    requires Inv(db)
    ensures Inv(Finish(db, lease, worker, output))
  {
    if Holds(db, lease, worker) {
      HeldStep(db, lease, worker);
      FinishOthersSame(db, lease, worker, output);
      FinishedStep(db, lease, worker, output);
      OthersKept(db, Finish(db, lease, worker, output), db.leases[lease].key);
    }
  }

  lemma FailedStep(db: Db, lease: LeaseId, worker: string, retryAt: Time)
    requires Inv(db) && Holds(db, lease, worker)
    ensures db.leases[lease].key in Fail(db, lease, worker, retryAt).steps
    ensures StepInv(Fail(db, lease, worker, retryAt), db.leases[lease].key)
  {
    HeldStep(db, lease, worker);
    ResolvedCounts(db, Fail(db, lease, worker, retryAt), lease, LeaseFailed);
    LeasesAddUp(db, db.leases[lease].key);
  }

  lemma FailKeepsInv(db: Db, lease: LeaseId, worker: string, retryAt: Time)
    requires Inv(db)
    ensures Inv(Fail(db, lease, worker, retryAt))
  {
    if Holds(db, lease, worker) {
      HeldStep(db, lease, worker);
      FailOthersSame(db, lease, worker, retryAt);
      FailedStep(db, lease, worker, retryAt);
      OthersKept(db, Fail(db, lease, worker, retryAt), db.leases[lease].key);
    }
  }

  lemma BeatLeases(db: Db, lease: LeaseId, worker: string, now: Time, expiresAt: Time, k: Key)
    ensures SameLeases(db, Beat(db, lease, worker, now, expiresAt), k)
  {
  }

  lemma BeatKeepsInv(db: Db, lease: LeaseId, worker: string, now: Time, expiresAt: Time)
    requires Inv(db)
    ensures Inv(Beat(db, lease, worker, now, expiresAt))
  {
    var db' := Beat(db, lease, worker, now, expiresAt);
    forall k | k in db'.steps ensures StepInv(db', k) {
      BeatLeases(db, lease, worker, now, expiresAt, k);
      StepKept(db, db', k);
    }
  }

  lemma SweptLeases(db: Db, swept: set<LeaseId>, now: Time, k: Key)
    requires swept <= db.leases.Keys && (forall l :: l in swept ==> db.leases[l].status == Active)
    ensures var db' := Sweep(db, swept, now);
            && Of(db', k) == Of(db, k) && With(db', k, Active) == With(db, k, Active) - swept
            && With(db', k, LeaseCompleted) == With(db, k, LeaseCompleted)
            && With(db', k, LeaseFailed) == With(db, k, LeaseFailed)
  {
  }

  /** A started step is swept exactly when its one active lease is. */
  lemma SweptActive(db: Db, swept: set<LeaseId>, k: Key)
    requires swept <= db.leases.Keys && (forall l :: l in swept ==> db.leases[l].status == Active)
    requires |With(db, k, Active)| == 1
    ensures |With(db, k, Active) - swept| == if exists m :: m in swept && db.leases[m].key == k then 0 else 1
  {
    var a := With(db, k, Active);
    var l :| l in a;
    assert |a - {l}| == 0;
    assert a == {l};
    if m :| m in swept && db.leases[m].key == k {
      assert m in a;
      assert a - swept == {};
    } else {
      assert a - swept == a;
    }
  }

  /** Sweeping active leases: a step loses its one active lease and goes back to the queue. */
  lemma SweptStep(db: Db, swept: set<LeaseId>, now: Time, k: Key)
    requires swept <= db.leases.Keys && (forall l :: l in swept ==> db.leases[l].status == Active)
    requires k in db.steps && StepInv(db, k)
    ensures StepInv(Sweep(db, swept, now), k)
  {
    var db' := Sweep(db, swept, now);
    SweptLeases(db, swept, now, k);
    assert KeepsPointers(db, db');
    if db.steps[k].status == Started {
      SweptActive(db, swept, k);
    } else {
      assert With(db, k, Active) - swept == {};
    }
  }

  lemma SweepKeepsInv(db: Db, swept: set<LeaseId>, now: Time)
    requires Inv(db) && swept <= db.leases.Keys && (forall l :: l in swept ==> db.leases[l].status == Active)
    ensures Inv(Sweep(db, swept, now))
  {
    forall k | k in db.steps ensures StepInv(Sweep(db, swept, now), k) {
      SweptStep(db, swept, now, k);
    }
  }

  lemma GrabbedLeases(db: Db, k: Key, worker: string, t: Ticket)
    requires k in db.steps && t.id !in db.leases
    ensures var db' := Grab(db, k, worker, t);
            && Of(db', k) == Of(db, k) + {t.id} && With(db', k, Active) == With(db, k, Active) + {t.id}
            && With(db', k, LeaseCompleted) == With(db, k, LeaseCompleted)
            && With(db', k, LeaseFailed) == With(db, k, LeaseFailed)
    ensures forall x :: x != k ==> SameLeases(db, Grab(db, k, worker, t), x)
  {
  }

  lemma GrabKeepsInv(db: Db, k: Key, worker: string, t: Ticket, now: Time)
    requires Inv(db) && k in db.steps && db.steps[k].status == Queued && Claimable(db, k, now) && t.id !in db.leases
    ensures Inv(Grab(db, k, worker, t))
  {
    GrabOthersSame(db, k, worker, t);
    GrabbedStep(db, k, worker, t, now);
    OthersKept(db, Grab(db, k, worker, t), k);
  }

  lemma GrabOthersSame(db: Db, k: Key, worker: string, t: Ticket)
    requires k in db.steps && db.steps[k].status == Queued && t.id !in db.leases
    ensures OthersSame(db, Grab(db, k, worker, t), k)
  {
    GrabbedLeases(db, k, worker, t);
  }

  lemma GrabbedStep(db: Db, k: Key, worker: string, t: Ticket, now: Time)
    requires Inv(db) && k in db.steps && db.steps[k].status == Queued && Claimable(db, k, now) && t.id !in db.leases
    ensures StepInv(Grab(db, k, worker, t), k)
  {
    GrabbedLeases(db, k, worker, t);
    assert StepInv(db, k);
    assert KeepsPointers(db, Grab(db, k, worker, t));
  }

  // ----- Enqueueing a fresh run -----

  lemma {:induction false} EnqueuedRows(db: Db, run: string, steps: seq<M.Step>, maxAttempts: nat, now: Time)
    ensures var db' := Enqueue(db, run, steps, maxAttempts, now);
            && db'.leases == db.leases && db.steps.Keys <= db'.steps.Keys
            && (forall k :: k in db'.steps && k.run != run ==> k in db.steps && db'.steps[k] == db.steps[k])
            && (forall k :: k in db'.steps && k.run == run && k !in db.steps ==> k.step in M.Ids(steps))
            && (forall s :: s in steps ==> Key(run, s.stepId) in db'.steps)
    ensures (forall k :: k in db.steps ==> k.run != run) ==>
            var db' := Enqueue(db, run, steps, maxAttempts, now);
            forall k :: k in db'.steps && k.run == run ==>
              db'.steps[k].attempt == 0 && db'.steps[k].status == Queued && db'.steps[k].maxAttempts == maxAttempts
  {
    if steps != [] {
      var init, last := steps[..|steps| - 1], steps[|steps| - 1];
      EnqueuedRows(db, run, init, maxAttempts, now);
      assert steps == init + [last];
    }
  }

  lemma EnqueueKeepsInv(db: Db, run: string, steps: seq<M.Step>, maxAttempts: nat, now: Time)
    requires Inv(db) && FreshRun(db, run) && maxAttempts >= 1
    ensures Inv(Enqueue(db, run, steps, maxAttempts, now))
  {
    var db' := Enqueue(db, run, steps, maxAttempts, now);
    EnqueuedRows(db, run, steps, maxAttempts, now);
    forall k | HasPointer(db, k) ensures HasPointer(db', k) {
      assert k.run != run;
    }
    forall k | k in db'.steps ensures StepInv(db', k) {
      assert SameLeases(db, db', k);
      if k.run == run {
        assert Of(db', k) == {} && forall s :: With(db', k, s) == {};
      } else {
        StepKept(db, db', k);
      }
    }
  }

  // ----- Runs -----

  /** The atomic changes the public methods are made of; a claim is a sweep followed by grabs. */
  datatype Event =
    | Enqueueing(run: string, steps: seq<M.Step>, maxAttempts: nat, now: Time)
    | Sweeping(now: Time)
    | Grabbing(key: Key, worker: string, ticket: Ticket, now: Time)
    | Beating(lease: LeaseId, worker: string, now: Time, expiresAt: Time)
    | Finishing(lease: LeaseId, worker: string, output: Pointer)
    | Failing(lease: LeaseId, worker: string, retryAt: Time)

  ghost predicate Enabled(db: Db, e: Event)
  {
    match e
    case Enqueueing(run, _, maxAttempts, _) => FreshRun(db, run) && maxAttempts >= 1
    case Grabbing(k, _, t, now) =>
      k in db.steps && db.steps[k].status == Queued && Claimable(db, k, now) && t.id !in db.leases
    case _ => true
  }

  ghost function Apply(db: Db, e: Event): Db
    requires Enabled(db, e)
  {
    match e
    case Enqueueing(run, steps, maxAttempts, now) => Enqueue(db, run, steps, maxAttempts, now)
    case Sweeping(now) => Expire(db, now)
    case Grabbing(k, worker, t, _) => Grab(db, k, worker, t)
    case Beating(lease, worker, now, expiresAt) => Beat(db, lease, worker, now, expiresAt)
    case Finishing(lease, worker, output) => Finish(db, lease, worker, output)
    case Failing(lease, worker, retryAt) => Fail(db, lease, worker, retryAt)
  }

  lemma ApplyKeepsInv(db: Db, e: Event)
    requires Inv(db) && Enabled(db, e)
    ensures Inv(Apply(db, e))
  {
    match e
    case Enqueueing(run, steps, maxAttempts, now) => EnqueueKeepsInv(db, run, steps, maxAttempts, now);
    case Sweeping(now) => SweepKeepsInv(db, Stale(db, now), now);
    case Grabbing(k, worker, t, now) => GrabKeepsInv(db, k, worker, t, now);
    case Beating(lease, worker, now, expiresAt) => BeatKeepsInv(db, lease, worker, now, expiresAt);
    case Finishing(lease, worker, output) => FinishKeepsInv(db, lease, worker, output);
    case Failing(lease, worker, retryAt) => FailKeepsInv(db, lease, worker, retryAt);
  }

  ghost predicate StepAt(dbs: seq<Db>, events: seq<Event>, i: nat)
    requires |dbs| == |events| + 1 && i < |events|
  {
    Enabled(dbs[i], events[i]) && dbs[i + 1] == Apply(dbs[i], events[i])
  }

  ghost predicate IsPath(dbs: seq<Db>, events: seq<Event>)
  {
    |dbs| == |events| + 1 && forall i :: 0 <= i < |events| ==> StepAt(dbs, events, i)
  }

  /** From empty tables. */
  ghost predicate IsRun(dbs: seq<Db>, events: seq<Event>)
  {
    IsPath(dbs, events) && dbs[0] == Db(map[], map[])
  }

  lemma {:induction false} RunInv(dbs: seq<Db>, events: seq<Event>, n: nat)
    requires IsRun(dbs, events) && n < |dbs|
    ensures Inv(dbs[n])
  {
    if n > 0 {
      RunInv(dbs, events, n - 1);
      assert StepAt(dbs, events, n - 1);
      ApplyKeepsInv(dbs[n - 1], events[n - 1]);
    }
  }

  // ----- A claim is a path of grabs -----

  ghost predicate TicketsFresh(db: Db, tickets: seq<Ticket>)
  {
    && (forall i :: 0 <= i < |tickets| ==> tickets[i].id !in db.leases)
    && forall i, j :: 0 <= i < j < |tickets| ==> tickets[i].id != tickets[j].id
  }

  ghost predicate QueueFresh(db: Db, queue: seq<Key>)
  {
    && (forall i :: 0 <= i < |queue| ==> queue[i] in db.steps && db.steps[queue[i]].status == Queued)
    && forall i, j :: 0 <= i < j < |queue| ==> queue[i] != queue[j]
  }

  lemma PathPrepend(db: Db, e: Event, dbs: seq<Db>, events: seq<Event>)
    requires IsPath(dbs, events) && Enabled(db, e) && dbs[0] == Apply(db, e)
    ensures IsPath([db] + dbs, [e] + events)
  {
    forall i | 0 <= i < |events| + 1 ensures StepAt([db] + dbs, [e] + events, i) {
      if i > 0 {
        assert StepAt(dbs, events, i - 1);
      }
    }
  }

  lemma {:induction false} ClaimIsPath(
      db: Db, queue: seq<Key>, capacity: nat, now: Time, worker: string, tickets: seq<Ticket>)
      returns (dbs: seq<Db>, events: seq<Event>)
    requires |tickets| >= capacity && TicketsFresh(db, tickets) && QueueFresh(db, queue)
    ensures forall k :: k in queue ==> k in db.steps
    ensures IsPath(dbs, events) && dbs[0] == db
    ensures dbs[|events|] == ClaimFrom(db, queue, capacity, now, worker, tickets).db
    decreases |queue|
  {
    assert forall k :: k in queue ==> k in db.steps;
    if queue == [] || capacity == 0 {
      dbs, events := [db], [];
    } else if !Claimable(db, queue[0], now) {
      dbs, events := ClaimIsPath(db, queue[1..], capacity, now, worker, tickets);
    } else {
      var e := Grabbing(queue[0], worker, tickets[0], now);
      var db' := Grab(db, queue[0], worker, tickets[0]);
      var ds, es := ClaimIsPath(db', queue[1..], capacity - 1, now, worker, tickets[1..]);
      PathPrepend(db, e, ds, es);
      dbs, events := [db] + ds, [e] + es;
    }
  }
}
