/** The sliding-window rate limiter of the runtime (eap/runtime/guardrails.py), over real-valued time. */
module Guardrails {

  datatype Rule = Rule(maxRequests: nat, window: real)
  {
    ghost predicate Valid() { maxRequests >= 1 && window > 0.0 }
  }

  datatype Decision = Decision(allowed: bool, remaining: nat, retryAfter: real)

  datatype Outcome = UnknownOperation | Decided(decision: Decision)

  datatype CallKey = CallKey(operation: string, actor: string)

  // ----- One key -----

  /** Drops the admitted calls that have left the window. */
  function Recent(bucket: seq<real>, start: real): seq<real>
  {
    if bucket != [] && bucket[0] <= start then Recent(bucket[1..], start) else bucket
  }

  function Max(a: real, b: real): real { if a >= b then a else b }

  predicate Admits(rule: Rule, bucket: seq<real>, now: real)
  {
    |Recent(bucket, now - rule.window)| < rule.maxRequests
  }

  /** The bucket after a call. */
  function Record(rule: Rule, bucket: seq<real>, now: real): seq<real>
  {
    Recent(bucket, now - rule.window) + if Admits(rule, bucket, now) then [now] else []
  }

  function Decide(rule: Rule, bucket: seq<real>, now: real): Decision
    requires rule.maxRequests >= 1
  {
    var recent := Recent(bucket, now - rule.window);
    if Admits(rule, bucket, now) then Decision(true, rule.maxRequests - (|recent| + 1), 0.0)
    else Decision(false, 0, Max(0.001, recent[0] + rule.window - now))
  }

  class RuntimeGuardrails {
    const rules: map<string, Rule>
    var requests: map<CallKey, seq<real>>

    ghost predicate Valid()
      reads this
    {
      forall op :: op in rules ==> rules[op].Valid()
    }

    ghost function Bucket(key: CallKey): seq<real>
      reads this
    {
      if key in requests then requests[key] else []
    }

    constructor (rules: map<string, Rule>)
      requires forall op :: op in rules ==> rules[op].Valid()
      ensures Valid() && this.rules == rules && forall key :: Bucket(key) == []
    {
      this.rules := rules;
      requests := map[];
    }

    method CheckRateLimit(operation: string, actor: string, now: real) returns (out: Outcome)
      requires Valid()
      modifies this`requests
      ensures Valid()
      ensures operation !in rules ==> out == UnknownOperation && requests == old(requests)
      ensures operation in rules ==>
        && out == Decided(Decide(rules[operation], old(Bucket(CallKey(operation, actor))), now))
        && Bucket(CallKey(operation, actor)) == Record(rules[operation], old(Bucket(CallKey(operation, actor))), now)
      ensures forall key :: key != CallKey(operation, actor) ==> Bucket(key) == old(Bucket(key))
    {
      if operation !in rules {
        return UnknownOperation;
      }
      var rule := rules[operation];
      var key := CallKey(operation, actor);
      var bucket := if key in requests then requests[key] else [];
      ghost var before := bucket;
      var start := now - rule.window;
      while bucket != [] && bucket[0] <= start
        invariant Recent(bucket, start) == Recent(before, start)
        decreases |bucket|
      {
        bucket := bucket[1..];
      }
      if |bucket| >= rule.maxRequests {
        requests := requests[key := bucket];
        return Decided(Decision(false, 0, Max(0.001, bucket[0] + rule.window - now)));
      }
      bucket := bucket + [now];
      requests := requests[key := bucket];
      out := Decided(Decision(true, rule.maxRequests - |bucket|, 0.0));
    }

    /** Calls of any operations and actors, one after the other, on a new object. */
    method Serve(calls: seq<Call>) returns (outs: seq<Outcome>)
      requires Valid() && forall key :: Bucket(key) == []
      modifies this`requests
      ensures Valid() && Served(rules, calls, outs)
      ensures forall key: CallKey :: key.operation in rules ==>
        Bucket(key) == After(rules[key.operation], TimesOf(calls, key))
    {
      outs := [];
      for k := 0 to |calls|
        invariant Valid() && |outs| == k && Served(rules, calls[..k], outs)
        invariant forall key: CallKey :: key.operation in rules ==>
          Bucket(key) == After(rules[key.operation], TimesOf(calls[..k], key))
      {
        var out := CheckRateLimit(calls[k].key.operation, calls[k].key.actor, calls[k].at);
        OneMoreCall(rules, calls, k, outs, out);
        forall key: CallKey | key.operation in rules
          ensures After(rules[key.operation], TimesOf(calls[..k + 1], key))
            == NextBucket(rules[key.operation], calls, k, key)
        {
          OneMoreBucket(rules[key.operation], calls, k, key);
        }
        outs := outs + [out];
      }
      assert calls[..|calls|] == calls;
    }
  }

  // ----- Histories of calls with one key -----

  ghost predicate NonDecreasing(times: seq<real>)
  {
    forall i, j :: 0 <= i < j < |times| ==> times[i] <= times[j]
  }

  /** The bucket after calls at the given times. */
  ghost function After(rule: Rule, times: seq<real>): seq<real>
  {
    if times == [] then [] else Record(rule, After(rule, times[..|times| - 1]), times[|times| - 1])
  }

  /** Every admitted call since the start. */
  ghost function Admitted(rule: Rule, times: seq<real>): seq<real>
  {
    if times == [] then []
    else
      var last := times[|times| - 1];
      var earlier := times[..|times| - 1];
      Admitted(rule, earlier) + if Admits(rule, After(rule, earlier), last) then [last] else []
  }

  lemma {:induction false} RecentIsSuffix(bucket: seq<real>, start: real) returns (n: nat)
    ensures n <= |bucket| && Recent(bucket, start) == bucket[n..]
    ensures forall i :: 0 <= i < n ==> bucket[i] <= start
    ensures n < |bucket| ==> bucket[n] > start
  {
    n := 0;
    if bucket != [] && bucket[0] <= start {
      var m := RecentIsSuffix(bucket[1..], start);
      n := m + 1;
      forall i | 0 <= i < n ensures bucket[i] <= start {
        assert i > 0 ==> bucket[i] == bucket[1..][i - 1];
      }
    }
  }

  /** `bucket` is the end of the admission log; what it dropped is at least a window older than `now`. */
  ghost predicate Tracks(rule: Rule, log: seq<real>, bucket: seq<real>, now: real)
  {
    && |bucket| <= |log| && bucket == log[|log| - |bucket|..] && |bucket| <= rule.maxRequests
    && NonDecreasing(log)
    && (forall i :: 0 <= i < |log| ==> log[i] <= now)
    && (forall i :: 0 <= i < |log| - |bucket| ==> log[i] <= now - rule.window)
    && Spaced(rule, log)
  }

  /** `maxRequests` admissions apart, at least a window apart. */
  ghost predicate Spaced(rule: Rule, log: seq<real>)
  {
    forall i :: 0 <= i < |log| - rule.maxRequests ==> log[i] <= log[i + rule.maxRequests] - rule.window
  }

  /** Everything outside what is still recent is at least a window old. */
  lemma DroppedAreOld(rule: Rule, log: seq<real>, bucket: seq<real>, before: real, now: real)
    requires Tracks(rule, log, bucket, before) && before <= now
    ensures var recent := Recent(bucket, now - rule.window);
            && |recent| <= |log| && recent == log[|log| - |recent|..] && |recent| <= |bucket|
            && (forall i :: 0 <= i < |log| - |recent| ==> log[i] <= now - rule.window)
            && (recent != [] ==> recent[0] > now - rule.window)
  {
    var recent := Recent(bucket, now - rule.window);
    var n := RecentIsSuffix(bucket, now - rule.window);
    var dropped := |log| - |recent|;
    assert recent == log[dropped..];
    forall i | 0 <= i < dropped ensures log[i] <= now - rule.window {
      if i >= |log| - |bucket| {
        assert log[i] == bucket[i - (|log| - |bucket|)];
      }
    }
  }

  lemma AdmissionKeepsSpacing(rule: Rule, log: seq<real>, now: real, dropped: nat)
    requires Spaced(rule, log) && dropped <= |log| && |log| - dropped < rule.maxRequests
    requires forall i :: 0 <= i < dropped ==> log[i] <= now - rule.window
    ensures Spaced(rule, log + [now])
  {
    var log' := log + [now];
    forall i | 0 <= i < |log'| - rule.maxRequests ensures log'[i] <= log'[i + rule.maxRequests] - rule.window {
      if i + rule.maxRequests < |log| {
        assert log[i] <= log[i + rule.maxRequests] - rule.window;
      }
    }
  }

  /** `bucket` is what is left of the log after dropping its first `dropped` entries. */
  ghost predicate Splits(rule: Rule, log: seq<real>, bucket: seq<real>, dropped: nat, now: real)
  {
    && dropped <= |log| && bucket == log[dropped..]
    && NonDecreasing(log) && (forall i :: 0 <= i < |log| ==> log[i] <= now)
    && (forall i :: 0 <= i < dropped ==> log[i] <= now - rule.window)
  }

  lemma SplitsAdmit(rule: Rule, log: seq<real>, bucket: seq<real>, dropped: nat, now: real)
    requires Splits(rule, log, bucket, dropped, now)
    ensures Splits(rule, log + [now], bucket + [now], dropped, now)
  {
    var log' := log + [now];
    assert log'[dropped..] == bucket + [now];
    forall i, j | 0 <= i < j < |log'| ensures log'[i] <= log'[j] {
      assert j < |log| ==> log[i] <= log[j];
    }
  }

  lemma TracksAfterCall(rule: Rule, log: seq<real>, bucket: seq<real>, before: real, now: real)
    requires rule.Valid() && Tracks(rule, log, bucket, before) && before <= now
    ensures Tracks(rule, log + (if Admits(rule, bucket, now) then [now] else []), Record(rule, bucket, now), now)
  {
    var recent := Recent(bucket, now - rule.window);
    var dropped := |log| - |recent|;
    DroppedAreOld(rule, log, bucket, before, now);
    assert Splits(rule, log, recent, dropped, now);
    if Admits(rule, bucket, now) {
      AdmissionKeepsSpacing(rule, log, now, dropped);
      SplitsAdmit(rule, log, recent, dropped, now);
      SplitTracks(rule, log + [now], recent + [now], dropped, now);
    } else {
      assert log + [] == log && recent + [] == recent;
      SplitTracks(rule, log, recent, dropped, now);
    }
  }

  lemma SplitTracks(rule: Rule, log: seq<real>, bucket: seq<real>, dropped: nat, now: real)
    requires Splits(rule, log, bucket, dropped, now) && Spaced(rule, log) && |bucket| <= rule.maxRequests
    ensures Tracks(rule, log, bucket, now)
  {
    assert |log| - |bucket| == dropped;
  }

  lemma {:induction false} LogTracks(rule: Rule, times: seq<real>)
    requires rule.Valid() && NonDecreasing(times) && times != []
    ensures Tracks(rule, Admitted(rule, times), After(rule, times), times[|times| - 1])
  {
    var init, last := times[..|times| - 1], times[|times| - 1];
    if init == [] {
      assert Tracks(rule, [], [], last);
      TracksAfterCall(rule, [], [], last, last);
    } else {
      LogTracks(rule, init);
      TracksAfterCall(rule, Admitted(rule, init), After(rule, init), init[|init| - 1], last);
    }
  }

  // ----- What the limiter promises -----

  /** How many entries of the log satisfy the predicate. */
  ghost function Count(log: seq<real>, inside: real -> bool): nat
  {
    if log == [] then 0
    else Count(log[..|log| - 1], inside) + if inside(log[|log| - 1]) then 1 else 0
  }

  /** Entries before position `n` do not count; later ones count at most once each, and once if all are inside. */
  lemma {:induction false} CountFrom(log: seq<real>, inside: real -> bool, n: nat)
    requires n <= |log| && forall i :: 0 <= i < n ==> !inside(log[i])
    ensures Count(log, inside) <= |log| - n
    ensures (forall i :: n <= i < |log| ==> inside(log[i])) ==> Count(log, inside) == |log| - n
  {
    if log != [] {
      if n == |log| {
        CountFrom(log[..|log| - 1], inside, n - 1);
      } else {
        CountFrom(log[..|log| - 1], inside, n);
      }
    }
  }

  ghost function Window(from: real, length: real): real -> bool
  {
    x => from <= x < from + length
  }

  lemma {:induction false} SpacedWindow(rule: Rule, log: seq<real>, from: real)
    requires rule.Valid() && NonDecreasing(log) && Spaced(rule, log)
    ensures Count(log, Window(from, rule.window)) <= rule.maxRequests
  {
    if log != [] {
      var last := |log| - 1;
      var inside := Window(from, rule.window);
      if inside(log[last]) {
        var n := if |log| > rule.maxRequests then |log| - rule.maxRequests else 0;
        forall i | 0 <= i < n ensures !inside(log[i]) {
          assert log[i] <= log[i + rule.maxRequests] - rule.window;
          assert i + rule.maxRequests < last ==> log[i + rule.maxRequests] <= log[last];
        }
        CountFrom(log, inside, n);
      } else {
        SpacedWindow(rule, log[..last], from);
      }
    }
  }

  /** Whatever the calls, any half-open window of the configured length holds at most `maxRequests` admissions. */
  lemma WindowNeverOverfull(rule: Rule, times: seq<real>, from: real)
    requires rule.Valid() && NonDecreasing(times)
    ensures Count(Admitted(rule, times), Window(from, rule.window)) <= rule.maxRequests
  {
    if times != [] {
      LogTracks(rule, times);
      SpacedWindow(rule, Admitted(rule, times), from);
    }
  }

  ghost function Ending(now: real, length: real): real -> bool
  {
    x => now - length < x <= now
  }

  /** The clock never runs backwards from the last call to this one. */
  ghost predicate Follows(times: seq<real>, now: real)
  {
    NonDecreasing(times) && (times != [] ==> times[|times| - 1] <= now)
  }

  lemma TracksBefore(rule: Rule, times: seq<real>, now: real)
    requires rule.Valid() && Follows(times, now)
    ensures Tracks(rule, Admitted(rule, times), After(rule, times), if times == [] then now else times[|times| - 1])
  {
    if times != [] {
      LogTracks(rule, times);
    }
  }

  lemma SplitCount(rule: Rule, log: seq<real>, recent: seq<real>, now: real)
    requires |recent| <= |log| && Splits(rule, log, recent, |log| - |recent|, now)
    requires recent != [] ==> recent[0] > now - rule.window
    ensures |recent| == Count(log, Ending(now, rule.window))
  {
    var n := |log| - |recent|;
    forall i | n <= i < |log| ensures Ending(now, rule.window)(log[i]) {
      assert recent[0] == log[n] && (n < i ==> log[n] <= log[i]);
    }
    CountFrom(log, Ending(now, rule.window), n);
  }

  lemma TrackedCount(rule: Rule, log: seq<real>, bucket: seq<real>, before: real, now: real)
    requires Tracks(rule, log, bucket, before) && before <= now
    ensures |Recent(bucket, now - rule.window)| == Count(log, Ending(now, rule.window)) <= rule.maxRequests
  {
    DroppedAreOld(rule, log, bucket, before, now);
    SplitCount(rule, log, Recent(bucket, now - rule.window), now);
  }

  /** A call is admitted exactly when the window ending at it holds fewer than `maxRequests` admissions. */
  lemma DeniedOnlyWhenFull(rule: Rule, times: seq<real>, now: real)
    requires rule.Valid() && Follows(times, now)
    ensures Admits(rule, After(rule, times), now) <==>
      Count(Admitted(rule, times), Ending(now, rule.window)) < rule.maxRequests
    ensures |Recent(After(rule, times), now - rule.window)| <= rule.maxRequests
  {
    TracksBefore(rule, times, now);
    TrackedCount(rule, Admitted(rule, times), After(rule, times), if times == [] then now else times[|times| - 1], now);
  }

  /** An admitted call is told how many more the window ending now would admit, itself counted; a denied one none. */
  lemma RemainingIsRight(rule: Rule, times: seq<real>, now: real)
    requires rule.Valid() && Follows(times, now)
    ensures var out := Decide(rule, After(rule, times), now);
      && out.allowed == Admits(rule, After(rule, times), now)
      && out.remaining == rule.maxRequests - Count(Admitted(rule, times + [now]), Ending(now, rule.window))
      && (out.retryAfter == 0.0 <==> out.allowed)
  {
    WindowCount(rule, times, now);
    DecisionNumbers(rule, After(rule, times), now);
    AdmittedCount(rule, times, now);
  }

  lemma DecisionNumbers(rule: Rule, bucket: seq<real>, now: real)
    requires rule.Valid() && |Recent(bucket, now - rule.window)| <= rule.maxRequests
    ensures var out := Decide(rule, bucket, now);
      && out.allowed == Admits(rule, bucket, now) && (out.retryAfter == 0.0 <==> out.allowed)
      && out.remaining == rule.maxRequests - |Recent(bucket, now - rule.window)| - (if out.allowed then 1 else 0)
  {
  }

  lemma AdmittedCount(rule: Rule, times: seq<real>, now: real)
    requires rule.Valid()
    ensures Count(Admitted(rule, times + [now]), Ending(now, rule.window)) ==
      Count(Admitted(rule, times), Ending(now, rule.window)) + if Admits(rule, After(rule, times), now) then 1 else 0
  {
    LastAdmitted(rule, times, now);
    var log := Admitted(rule, times);
    CountOneMore(log, now, rule.window);
    assert log + [] == log;
  }

  /** What is left in the bucket is what was admitted in the window ending now. */
  lemma WindowCount(rule: Rule, times: seq<real>, now: real)
    requires rule.Valid() && Follows(times, now)
    ensures |Recent(After(rule, times), now - rule.window)| == Count(Admitted(rule, times), Ending(now, rule.window))
    ensures Count(Admitted(rule, times), Ending(now, rule.window)) <= rule.maxRequests
  {
    TracksBefore(rule, times, now);
    TrackedCount(rule, Admitted(rule, times), After(rule, times), if times == [] then now else times[|times| - 1], now);
  }

  lemma CountOneMore(log: seq<real>, now: real, length: real)
    requires length > 0.0
    ensures Count(log + [now], Ending(now, length)) == Count(log, Ending(now, length)) + 1
  {
    assert (log + [now])[..|log|] == log;
    assert Ending(now, length)(now);
  }

  /** A full bucket frees a place exactly when its oldest entry leaves the window. */
  lemma FullBucketOpens(rule: Rule, bucket: seq<real>, later: real)
    requires rule.Valid() && |bucket| == rule.maxRequests
    ensures Admits(rule, bucket, later) <==> later >= bucket[0] + rule.window
    ensures !Admits(rule, bucket, later) ==> Record(rule, bucket, later) == bucket
  {
    var m := RecentIsSuffix(bucket, later - rule.window);
  }

  /**
    After a denial every call stays denied until the oldest admission leaves the window, the
    first call from then on is admitted, and the reported delay never points before that time.
   */
  lemma RetryTimeIsRight(rule: Rule, times: seq<real>, now: real, later: real)
    requires rule.Valid() && Follows(times, now) && now <= later && !Admits(rule, After(rule, times), now)
    ensures var bucket := Record(rule, After(rule, times), now);
            var reported := Decide(rule, After(rule, times), now).retryAfter;
            && bucket != []
            && (Admits(rule, bucket, later) <==> later >= bucket[0] + rule.window)
            && (!Admits(rule, bucket, later) ==> Record(rule, bucket, later) == bucket)
            && reported == Max(0.001, bucket[0] + rule.window - now) && HeaderSeconds(reported) as real >= reported
  {
    DeniedOnlyWhenFull(rule, times, now);
    var recent := Recent(After(rule, times), now - rule.window);
    assert Record(rule, After(rule, times), now) == recent;
    FullBucketOpens(rule, recent, later);
  }

  /** `retry_after_header_value`: whole seconds, at least one. */
  function HeaderSeconds(retryAfter: real): (s: int)
    ensures s >= 1 && s as real >= retryAfter
    ensures s > 1 ==> (s - 1) as real < retryAfter
  {
    var ceiling := if retryAfter.Floor as real == retryAfter then retryAfter.Floor else retryAfter.Floor + 1;
    if ceiling >= 1 then ceiling else 1
  }

  // ----- Calls of many operations and actors -----

  datatype Call = Call(key: CallKey, at: real)

  /** When one key was called. */
  ghost function TimesOf(calls: seq<Call>, key: CallKey): seq<real>
  {
    if calls == [] then []
    else
      var last := calls[|calls| - 1];
      TimesOf(calls[..|calls| - 1], key) + if last.key == key then [last.at] else []
  }

  /** When one key's calls were allowed. */
  ghost function AllowedTimes(calls: seq<Call>, outs: seq<Outcome>, key: CallKey): seq<real>
    requires |calls| == |outs|
  {
    if calls == [] then []
    else
      var n := |calls| - 1;
      AllowedTimes(calls[..n], outs[..n], key)
      + if calls[n].key == key && outs[n].Decided? && outs[n].decision.allowed then [calls[n].at] else []
  }

  /** Each call is decided by the earlier calls of its own key and by nothing else. */
  ghost predicate Served(rules: map<string, Rule>, calls: seq<Call>, outs: seq<Outcome>)
  {
    |calls| == |outs| && forall i :: 0 <= i < |calls| ==> ServedAt(rules, calls, i, outs[i])
  }

  ghost predicate ServedAt(rules: map<string, Rule>, calls: seq<Call>, i: nat, out: Outcome)
    requires i < |calls|
  {
    var key := calls[i].key;
    if key.operation !in rules then out == UnknownOperation
    else
      rules[key.operation].maxRequests >= 1
      && var bucket := After(rules[key.operation], TimesOf(calls[..i], key));
         out == Decided(Decide(rules[key.operation], bucket, calls[i].at))
  }

  lemma OneMoreTime(calls: seq<Call>, k: nat, key: CallKey)
    requires k < |calls|
    ensures TimesOf(calls[..k + 1], key) == TimesOf(calls[..k], key) + if calls[k].key == key then [calls[k].at] else []
  {
    assert calls[..k + 1][..k] == calls[..k];
  }

  /** The bucket of a key after call `k`, which may be another key's. */
  ghost function NextBucket(rule: Rule, calls: seq<Call>, k: nat, key: CallKey): seq<real>
    requires k < |calls|
  {
    var bucket := After(rule, TimesOf(calls[..k], key));
    if calls[k].key == key then Record(rule, bucket, calls[k].at) else bucket
  }

  lemma OneMoreBucket(rule: Rule, calls: seq<Call>, k: nat, key: CallKey)
    requires k < |calls|
    ensures After(rule, TimesOf(calls[..k + 1], key)) == NextBucket(rule, calls, k, key)
  {
    OneMoreTime(calls, k, key);
    var times := TimesOf(calls[..k], key);
    assert times + [] == times && (times + [calls[k].at])[..|times|] == times;
  }

  lemma OneMoreCall(rules: map<string, Rule>, calls: seq<Call>, k: nat, outs: seq<Outcome>, out: Outcome)
    requires k < |calls| && Served(rules, calls[..k], outs) && ServedAt(rules, calls, k, out)
    ensures Served(rules, calls[..k + 1], outs + [out])
  {
    forall i | 0 <= i < k + 1 ensures ServedAt(rules, calls[..k + 1], i, (outs + [out])[i]) {
      assert calls[..k + 1][..i] == calls[..i];
      if i < k {
        assert ServedAt(rules, calls[..k], i, outs[i]) && calls[..k][..i] == calls[..i];
      }
    }
  }

  lemma {:induction false} AllowedIsAdmitted(
      rules: map<string, Rule>, calls: seq<Call>, outs: seq<Outcome>, key: CallKey)
    requires Served(rules, calls, outs) && key.operation in rules
    ensures AllowedTimes(calls, outs, key) == Admitted(rules[key.operation], TimesOf(calls, key))
  {
    if calls != [] {
      var n := |calls| - 1;
      ServedBefore(rules, calls, outs);
      AllowedIsAdmitted(rules, calls[..n], outs[..n], key);
      assert ServedAt(rules, calls, n, outs[n]);
      var times, allowed := TimesOf(calls[..n], key), AllowedTimes(calls[..n], outs[..n], key);
      LastAdmitted(rules[key.operation], times, calls[n].at);
      assert times + [] == times && allowed + [] == allowed;
    }
  }

  lemma ServedBefore(rules: map<string, Rule>, calls: seq<Call>, outs: seq<Outcome>)
    requires Served(rules, calls, outs) && calls != []
    ensures Served(rules, calls[..|calls| - 1], outs[..|calls| - 1])
  {
    var n := |calls| - 1;
    forall i | 0 <= i < n ensures ServedAt(rules, calls[..n], i, outs[..n][i]) {
      assert ServedAt(rules, calls, i, outs[i]) && calls[..n][..i] == calls[..i];
    }
  }

  lemma LastAdmitted(rule: Rule, times: seq<real>, now: real)
    ensures Admitted(rule, times + [now]) ==
      Admitted(rule, times) + if Admits(rule, After(rule, times), now) then [now] else []
  {
    assert (times + [now])[..|times|] == times;
  }

  ghost predicate ClockRuns(calls: seq<Call>)
  {
    forall i, j :: 0 <= i < j < |calls| ==> calls[i].at <= calls[j].at
  }

  lemma {:induction false} TimesInOrder(calls: seq<Call>, key: CallKey)
    requires ClockRuns(calls)
    ensures NonDecreasing(TimesOf(calls, key))
    ensures forall t :: t in TimesOf(calls, key) ==> calls != [] && t <= calls[|calls| - 1].at
  {
    if calls != [] {
      var init, last := calls[..|calls| - 1], calls[|calls| - 1];
      TimesInOrder(init, key);
      var times := TimesOf(init, key);
      assert init != [] ==> init[|init| - 1].at <= last.at;
      assert forall t :: t in times ==> t <= last.at;
      assert forall i :: 0 <= i < |times| ==> times[i] in times;
    }
  }

  /** However calls interleave, no window holds more allowed calls of one operation and actor than its limit. */
  lemma EveryKeyWithinLimit(rules: map<string, Rule>, calls: seq<Call>, outs: seq<Outcome>, key: CallKey, from: real)
    requires Served(rules, calls, outs) && ClockRuns(calls) && key.operation in rules && rules[key.operation].Valid()
    ensures var rule := rules[key.operation];
      Count(AllowedTimes(calls, outs, key), Window(from, rule.window)) <= rule.maxRequests
  {
    AllowedIsAdmitted(rules, calls, outs, key);
    TimesInOrder(calls, key);
    WindowNeverOverfull(rules[key.operation], TimesOf(calls, key), from);
  }
}
