/**
  What each call of the coordinator means to its callers: which steps a step depends on, when a
  step may be claimed, how long a lease lasts, and what completion and failure leave behind.
 */
module CoordinatorLaws {
  import opened Wrappers
  import opened Sorting
  import opened Coordinator
  import opened CoordinatorRuns
  import opened CoordinatorTheorems
  import Text
  import M = Macro

  // ----- Which steps a step depends on -----

  ghost predicate Occurs(s: string)
  {
    exists i :: 0 <= i <= |s| && M.StepPrefix <= s[i..]
  }

  lemma RemoveHere(s: string)
    requires M.StepPrefix <= s
    ensures WithoutPrefix(s) == WithoutPrefix(s[|M.StepPrefix|..])
  {
  }

  lemma KeepHere(s: string)
    requires s != "" && !(M.StepPrefix <= s)
    ensures WithoutPrefix(s) == [s[0]] + WithoutPrefix(s[1..])
  {
  }

  lemma ConcatTails(a: string, b: string, k: nat)
    requires k <= |a|
    ensures (a + b)[k..] == a[k..] + b
  {
  }

  lemma Regroup(c: char, a: string, b: string)
    ensures [c] + (a + b) == [c] + a + b
  {
  }

  /** The prefix holds no dot, so taking it out works on each side of a dot by itself. */
  lemma {:induction false} RemovalSplits(a: string, b: string)
    requires '.' !in a
    ensures WithoutPrefix(a + ("." + b)) == WithoutPrefix(a) + ("." + WithoutPrefix(b))
    decreases |a|
  {
    if a == "" {
      DotStays(b);
    } else if M.StepPrefix <= a {
      var n := |M.StepPrefix|;
      ConcatTails(a, "." + b, n);
      RemovalSplits(a[n..], b);
      RemoveHere(a);
      RemoveHere(a + ("." + b));
    } else {
      NoPrefixAcrossDot(a, b);
      ConcatTails(a, "." + b, 1);
      RemovalSplits(a[1..], b);
      KeepHere(a);
      KeepHere(a + ("." + b));
      Regroup(a[0], WithoutPrefix(a[1..]), "." + WithoutPrefix(b));
    }
  }

  lemma DotStays(b: string)
    ensures WithoutPrefix("" + ("." + b)) == WithoutPrefix("") + ("." + WithoutPrefix(b))
  {
    var s := "" + ("." + b);
    assert s[0] == '.' && s[1..] == b;
    KeepHere(s);
    assert WithoutPrefix("") == "" && [s[0]] + WithoutPrefix(b) == "" + ("." + WithoutPrefix(b));
  }

  lemma NoPrefixAcrossDot(a: string, b: string)
    requires '.' !in a && !(M.StepPrefix <= a)
    ensures !(M.StepPrefix <= a + ("." + b))
  {
    var s := a + ("." + b);
    assert s[|a|] == '.' && M.StepPrefix == ['$', 's', 't', 'e', 'p', ':'];
    assert |a| >= |M.StepPrefix| ==> s[..|M.StepPrefix|] == a[..|M.StepPrefix|];
  }

  /** Taking the prefix out changes a text exactly when the prefix occurs in it, and adds no dot. */
  lemma {:induction false} RemovalChanges(a: string)
    ensures Occurs(a) ==> |WithoutPrefix(a)| < |a|
    ensures !Occurs(a) ==> WithoutPrefix(a) == a
    ensures '.' !in a ==> '.' !in WithoutPrefix(a)
    decreases |a|
  {
    assert a[0..] == a;
    if M.StepPrefix <= a {
      RemovalChanges(a[|M.StepPrefix|..]);
    } else if a != "" {
      RemovalChanges(a[1..]);
      OccursLater(a);
      assert a == [a[0]] + a[1..];
    }
  }

  lemma OccursLater(a: string)
    requires a != "" && !(M.StepPrefix <= a)
    ensures Occurs(a) <==> Occurs(a[1..])
  {
    assert a[0..] == a;
    if i :| 0 <= i <= |a| && M.StepPrefix <= a[i..] {
      assert a[1..][i - 1..] == a[i..];
    }
    if i :| 0 <= i <= |a[1..]| && M.StepPrefix <= a[1..][i..] {
      assert a[i + 1..] == a[1..][i..];
    }
  }

  /** A reference makes its step a dependency, whatever path follows the id. */
  lemma DependencyOfText(text: string)
    requires M.StepPrefix <= text
    ensures M.Head(WithoutPrefix(text)) == WithoutPrefix(M.Head(M.Payload(text)))
  {
    RemoveHere(text);
    HeadOfRemoval(M.Payload(text));
  }

  lemma HeadOfRemoval(rest: string)
    ensures M.Head(WithoutPrefix(rest)) == WithoutPrefix(M.Head(rest))
  {
    var h := M.Head(rest);
    RemovalChanges(h);
    if h != rest {
      var tail := rest[|h| + 1..];
      assert rest == h + ("." + tail);
      RemovalSplits(h, tail);
      HeadBeforeDot(WithoutPrefix(h), WithoutPrefix(tail));
    } else {
      M.HeadOf(WithoutPrefix(h), WithoutPrefix(h));
    }
  }

  lemma HeadBeforeDot(h: string, tail: string)
    requires '.' !in h
    ensures M.Head(h + ("." + tail)) == h
  {
    M.HeadOf(h + ("." + tail), h);
  }

  /** A whole top-level argument that is a reference to `d`. */
  ghost predicate RefersTo(v: M.Value, d: string)
  {
    v.Str? && M.StepPrefix <= v.text && WithoutPrefix(M.Head(M.Payload(v.text))) == d
  }

  lemma DependenciesIff(arguments: seq<(string, M.Value)>, d: string)
    ensures d in Dependencies(arguments) <==> d != "" && exists i :: 0 <= i < |arguments| && RefersTo(arguments[i].1, d)
  {
    forall i | 0 <= i < |arguments| && arguments[i].1.Str? && M.StepPrefix <= arguments[i].1.text
      ensures RefersTo(arguments[i].1, M.Head(WithoutPrefix(arguments[i].1.text)))
      ensures forall e :: RefersTo(arguments[i].1, e) ==> e == M.Head(WithoutPrefix(arguments[i].1.text))
    {
      DependencyOfText(arguments[i].1.text);
    }
  }

  /** An argument `$step:d`, with or without a path, makes `d` a dependency. */
  lemma ReferenceIsDependency(arguments: seq<(string, M.Value)>, i: nat, rest: string, d: string)
    requires i < |arguments| && arguments[i].1 == M.Str("$step:" + rest)
    requires d != "" && M.NamesStep(rest, d) && !Occurs(d)
    ensures d in Dependencies(arguments)
  {
    assert M.Payload("$step:" + rest) == rest;
    M.HeadIff(rest, d);
    RemovalChanges(d);
    DependenciesIff(arguments, d);
    assert RefersTo(arguments[i].1, d);
  }

  /** Nothing else is a dependency: unless an id holds the prefix, these are the validator's references. */
  lemma DependencyIsReference(arguments: seq<(string, M.Value)>, d: string) returns (i: nat)
    requires d in Dependencies(arguments)
    requires forall j :: 0 <= j < |arguments| && arguments[j].1.Str? && M.StepPrefix <= arguments[j].1.text ==>
      !Occurs(M.Head(M.Payload(arguments[j].1.text)))
    ensures i < |arguments| && arguments[i].1.Str? && M.StepPrefix <= arguments[i].1.text
    ensures d in M.TextReferences(arguments[i].1.text)
  {
    DependenciesIff(arguments, d);
    i :| 0 <= i < |arguments| && RefersTo(arguments[i].1, d);
    RemovalChanges(M.Head(M.Payload(arguments[i].1.text)));
  }

  /** The coordinator and the validator name the same step exactly when the id does not hold the prefix itself. */
  lemma NamesAgreeIff(text: string)
    requires M.StepPrefix <= text
    ensures M.Head(WithoutPrefix(text)) == M.Head(M.Payload(text)) <==> !Occurs(M.Head(M.Payload(text)))
  {
    DependencyOfText(text);
    RemovalChanges(M.Head(M.Payload(text)));
  }

  lemma OneArgument(text: string, d: string)
    requires M.StepPrefix <= text
    ensures d in Dependencies([("x", M.Str(text))]) <==> d != "" && WithoutPrefix(M.Head(M.Payload(text))) == d
  {
    var arguments := [("x", M.Str(text))];
    assert RefersTo(arguments[0].1, WithoutPrefix(M.Head(M.Payload(text))));
    DependenciesIff(arguments, d);
  }

  const Nested := "$step:$step:a"
  const Inner := "$step:a"

  lemma NestedFacts()
    ensures M.StepPrefix <= Nested && M.Payload(Nested) == Inner && M.Head(Inner) == Inner
  {
    assert Nested[|M.StepPrefix|..] == Inner;
    M.HeadOf(Inner, Inner);
  }

  lemma InnerRemoved()
    ensures WithoutPrefix(Inner) == "a"
  {
    assert Inner[|M.StepPrefix|..] == "a" && "a"[1..] == "";
    RemoveHere(Inner);
    KeepHere("a");
    assert WithoutPrefix("") == "" && ['a'] + "" == "a";
  }

  /** They disagree on `$step:$step:a`: the validator sees the id `$step:a`, the coordinator `a`. */
  lemma NestedPrefixDiffers()
    ensures M.TextReferences(Nested) == {Inner}
    ensures "a" in Dependencies([("x", M.Str(Nested))]) && Inner !in Dependencies([("x", M.Str(Nested))])
  {
    NestedFacts();
    InnerRemoved();
    OneArgument(Nested, "a");
    OneArgument(Nested, Inner);
  }

  // ----- Enqueueing -----

  /** In a fresh run every step waits with its own references as dependencies and no attempt made. */
  lemma {:induction false} EnqueuedExactly(
      db: Db, run: string, steps: seq<M.Step>, maxAttempts: nat, now: Time, s: M.Step)
    requires M.UniqueIds(steps) && s in steps
    ensures var db' := Enqueue(db, run, steps, maxAttempts, now); var k := Key(run, s.stepId);
      k in db'.steps && db'.steps[k] == StepRow(Dependencies(s.arguments), Queued, 0, maxAttempts, Some(now), None)
  {
    var init, last := steps[..|steps| - 1], steps[|steps| - 1];
    if s != last {
      var i :| 0 <= i < |steps| && steps[i] == s;
      assert init[i] == s && steps[i].stepId != steps[|steps| - 1].stepId;
      EnqueuedExactly(db, run, init, maxAttempts, now, s);
    }
  }

  /** Steps of a freshly enqueued run may be claimed from then on exactly if they refer to no other step. */
  lemma EnqueuedClaimable(db: Db, run: string, steps: seq<M.Step>, maxAttempts: nat, now: Time, s: M.Step, t: Time)
    requires M.UniqueIds(steps) && s in steps && FreshRun(db, run)
    ensures var db' := Enqueue(db, run, steps, maxAttempts, now); var k := Key(run, s.stepId);
      k in QueuedKeys(db') && (Claimable(db', k, t) <==> t >= now && Dependencies(s.arguments) == {})
  {
    EnqueuedExactly(db, run, steps, maxAttempts, now, s);
    EnqueuedRows(db, run, steps, maxAttempts, now);
    var db', k := Enqueue(db, run, steps, maxAttempts, now), Key(run, s.stepId);
    assert db'.steps[k].dependsOn == Dependencies(s.arguments) && db'.steps[k].nextAttemptAt == Some(now);
    if d :| d in Dependencies(s.arguments) {
      assert !HasPointer(db', Key(run, d));
      assert d in db'.steps[k].dependsOn;
    } else {
      assert Dependencies(s.arguments) == {};
    }
  }

  lemma RowStays(db: Db, e: Event, k: Key)
    requires Inv(db) && Enabled(db, e) && k in db.steps
    ensures k in Apply(db, e).steps
  {
    if e.Enqueueing? {
      EnqueuedRows(db, e.run, e.steps, e.maxAttempts, e.now);
    }
  }

  lemma {:induction false} DependenciesStay(dbs: seq<Db>, events: seq<Event>, i: nat, n: nat, k: Key)
    requires IsRun(dbs, events) && i <= n < |dbs| && k in dbs[i].steps
    ensures k in dbs[n].steps && dbs[n].steps[k].dependsOn == dbs[i].steps[k].dependsOn
    decreases n
  {
    if i < n {
      DependenciesStay(dbs, events, i, n - 1, k);
      RunInv(dbs, events, n - 1);
      assert StepAt(dbs, events, n - 1);
      RowStays(dbs[n - 1], events[n - 1], k);
      RowsKept(dbs[n - 1], events[n - 1], k);
    }
  }

  /**
    In every run a step with an argument `$step:d` is first claimed when `d` has completed with a
    pointer, which it then keeps.
   */
  lemma ReferencesFirst(dbs: seq<Db>, events: seq<Event>, i: nat, n: nat, s: M.Step, a: nat, rest: string, d: string)
    requires IsRun(dbs, events) && i < |events| && i < n < |dbs|
    requires events[i].Enqueueing? && M.UniqueIds(events[i].steps) && s in events[i].steps
    requires a < |s.arguments| && s.arguments[a].1 == M.Str("$step:" + rest)
    requires d != "" && M.NamesStep(rest, d) && !Occurs(d)
    ensures var k := Key(events[i].run, s.stepId);
      k in dbs[n].steps && (dbs[n].steps[k].attempt >= 1 ==> HasPointer(dbs[n], Key(events[i].run, d)))
  {
    var e, k := events[i], Key(events[i].run, s.stepId);
    assert StepAt(dbs, events, i);
    EnqueuedExactly(dbs[i], e.run, e.steps, e.maxAttempts, e.now, s);
    ReferenceIsDependency(s.arguments, a, rest, d);
    DependenciesStay(dbs, events, i + 1, n, k);
    RunInv(dbs, events, n);
    assert StepInv(dbs[n], k);
  }

  /** Steps come in the order they are due, those without a time first, and by step id when due together. */
  lemma QueuePrecedes(db: Db, queue: seq<Key>, i: nat, j: nat)
    requires IsQueue(db, queue) && i < |queue| && j < |queue| && queue[i] in db.steps && queue[j] in db.steps
    requires var a, b := db.steps[queue[i]].nextAttemptAt, db.steps[queue[j]].nextAttemptAt;
      || (a.None? && b.Some?) || (a.Some? && b.Some? && a.value < b.value)
      || (a == b && Text.Less(queue[i].step, queue[j].step))
    ensures i < j
  {
    Text.LessIrreflexive(queue[i].step);
    assert QueuedBefore(db.steps, queue[i], queue[j]);
  }

  // ----- Leases -----

  /** A sweep ends exactly the leases that have run out; the steps they held may be tried again at once. */
  lemma SweepExactly(db: Db, now: Time, l: LeaseId)
    requires Inv(db) && l in db.leases
    ensures var db' := Expire(db, now);
      && l in db'.leases
      && (db'.leases[l].status == Active <==> db.leases[l].status == Active && db.leases[l].expiresAt > now)
      && (db.leases[l].status == Active && db.leases[l].expiresAt <= now ==>
            && db'.leases[l].status == Expired && db.leases[l].key in QueuedKeys(db')
            && db'.steps[db.leases[l].key].nextAttemptAt == Some(now))
  {
    if l in Stale(db, now) {
      HolderIsStarted(db, l, db.leases[l].worker);
    }
  }

  /** A heartbeat succeeds exactly when a sweep at that moment would have left the lease to its worker. */
  lemma HeartbeatIff(db: Db, l: LeaseId, worker: string, now: Time)
    requires Inv(db)
    ensures CanBeat(db, l, worker, now) <==> Holds(Expire(db, now), l, worker)
  {
    if l in db.leases {
      SweepExactly(db, now, l);
    }
  }

  /** A heartbeat keeps the lease through every sweep before its new expiry, and no longer. */
  lemma HeartbeatExtends(db: Db, l: LeaseId, worker: string, now: Time, expiresAt: Time, later: Time)
    requires Inv(db) && CanBeat(db, l, worker, now)
    ensures Holds(Expire(Beat(db, l, worker, now, expiresAt), later), l, worker) <==> later < expiresAt
  {
    var db' := Beat(db, l, worker, now, expiresAt);
    BeatKeepsInv(db, l, worker, now, expiresAt);
    SweepExactly(db', later, l);
  }

  /** Each grant of a claim is an active lease of the worker on a started step, and lasts until it expires. */
  lemma {:induction false} GrantsAreLeases(
      db: Db, queue: seq<Key>, capacity: nat, now: Time, worker: string, tickets: seq<Ticket>, i: nat)
    requires |tickets| >= capacity && TicketsFresh(db, tickets) && QueueFresh(db, queue)
    requires forall k :: k in queue ==> k in db.steps
    requires i < |ClaimFrom(db, queue, capacity, now, worker, tickets).grants|
    ensures var c := ClaimFrom(db, queue, capacity, now, worker, tickets); var g := c.grants[i];
      && Holds(c.db, g.lease, worker) && c.db.leases[g.lease] == LeaseRow(g.key, worker, g.attempt, g.expiresAt, Active)
      && g.key in c.db.steps && c.db.steps[g.key].status == Started && c.db.steps[g.key].attempt == g.attempt
    decreases |queue|
  {
    var k, rest := queue[0], queue[1..];
    assert QueueFresh(db, rest);
    if !Claimable(db, k, now) {
      GrantsAreLeases(db, rest, capacity, now, worker, tickets, i);
    } else {
      var db' := Grab(db, k, worker, tickets[0]);
      assert QueueFresh(db', rest) && TicketsFresh(db', tickets[1..]);
      if i > 0 {
        GrantsAreLeases(db', rest, capacity - 1, now, worker, tickets[1..], i - 1);
      } else {
        EarlierGrantStays(db', rest, capacity - 1, now, worker, tickets[1..], tickets[0].id, k);
      }
    }
  }

  /** A claim leaves other leases and steps outside its queue alone. */
  lemma {:induction false} EarlierGrantStays(
      db: Db, queue: seq<Key>, capacity: nat, now: Time, worker: string, tickets: seq<Ticket>, l: LeaseId, k: Key)
    requires |tickets| >= capacity && (forall x :: x in queue ==> x in db.steps) && k !in queue
    requires l in db.leases && k in db.steps && forall j :: 0 <= j < |tickets| ==> tickets[j].id != l
    ensures var db' := ClaimFrom(db, queue, capacity, now, worker, tickets).db;
      l in db'.leases && db'.leases[l] == db.leases[l] && k in db'.steps && db'.steps[k] == db.steps[k]
    decreases |queue|
  {
    if queue != [] && capacity > 0 {
      if !Claimable(db, queue[0], now) {
        EarlierGrantStays(db, queue[1..], capacity, now, worker, tickets, l, k);
      } else {
        var db' := Grab(db, queue[0], worker, tickets[0]);
        EarlierGrantStays(db', queue[1..], capacity - 1, now, worker, tickets[1..], l, k);
      }
    }
  }

  /** Whoever does not hold a lease changes nothing with it. */
  lemma StrangersChangeNothing(
      db: Db, l: LeaseId, worker: string, now: Time, expiresAt: Time, output: Pointer, retryAt: Time)
    requires l in db.leases ==> db.leases[l].worker != worker || db.leases[l].status != Active
    ensures Apply(db, Beating(l, worker, now, expiresAt)) == db
    ensures Apply(db, Finishing(l, worker, output)) == db && Apply(db, Failing(l, worker, retryAt)) == db
  {
  }

  // ----- Completion and failure -----

  /** The holder's failure closes the lease; while attempts remain the step waits for its backoff and can
    then be claimed. */
  lemma FailureRequeues(db: Db, l: LeaseId, worker: string, retryAt: Time, t: Time)
    requires Inv(db) && Holds(db, l, worker)
    ensures db.leases[l].key in db.steps
    ensures var k := db.leases[l].key; var db' := Apply(db, Failing(l, worker, retryAt));
      && l in db'.leases && db'.leases[l].status == LeaseFailed && k in db'.steps
      && (db.steps[k].attempt < db.steps[k].maxAttempts ==>
            && k in QueuedKeys(db')
            && (Claimable(db', k, t) <==> t >= retryAt && DependenciesMet(db', k)))
      && (db.steps[k].attempt >= db.steps[k].maxAttempts ==> db'.steps[k].status == Failed)
  {
    HolderIsStarted(db, l, worker);
  }

  /** A step is given up only after all its attempts. */
  lemma FailedUsedItsAttempts(dbs: seq<Db>, events: seq<Event>, n: nat, k: Key)
    requires IsRun(dbs, events) && n < |dbs| && k in dbs[n].steps && dbs[n].steps[k].status == Failed
    ensures dbs[n].steps[k].attempt >= dbs[n].steps[k].maxAttempts
    ensures |Of(dbs[n], k)| >= dbs[n].steps[k].maxAttempts
  {
    RunInv(dbs, events, n);
    assert StepInv(dbs[n], k);
  }

  /** What the holder hands in is the step's output for ever after, and satisfies its dependents if it is not empty. */
  lemma CompletionDelivers(dbs: seq<Db>, events: seq<Event>, i: nat, n: nat)
    requires IsRun(dbs, events) && i < |events| && i < n < |dbs|
    requires events[i].Finishing? && Holds(dbs[i], events[i].lease, events[i].worker)
    ensures var e := events[i]; var k := dbs[i].leases[e.lease].key;
      && k in dbs[n].steps && dbs[n].steps[k].status == Completed && dbs[n].steps[k].output == Some(e.output)
      && (HasPointer(dbs[n], k) <==> e.output != "")
      && e.lease in dbs[n].leases && dbs[n].leases[e.lease].status == LeaseCompleted
  {
    var e := events[i];
    RunInv(dbs, events, i);
    assert StepAt(dbs, events, i);
    HolderIsStarted(dbs[i], e.lease, e.worker);
    OutcomesAreFinal(dbs, events, i + 1, n, dbs[i].leases[e.lease].key);
    DeadLeasesStayDead(dbs, events, i + 1, n, e.lease);
  }
}
