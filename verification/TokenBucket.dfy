/** The token bucket that limits request rates (eap/environment/executor.py), over real-valued time. */
module TokenBucket {

  datatype Limit = Limit(perSecond: real, capacity: int)
  {
    ghost predicate Valid() { perSecond > 0.0 && capacity >= 1 }
  }

  datatype Level = Level(tokens: real, lastRefill: real)
  {
    ghost predicate Within(limit: Limit) { 0.0 <= tokens <= limit.capacity as real }
  }

  function Min(a: real, b: real): real { if a <= b then a else b }

  function Refill(limit: Limit, level: Level, now: real): Level
  {
    if now > level.lastRefill
    then Level(Min(limit.capacity as real, level.tokens + (now - level.lastRefill) * limit.perSecond), now)
    else level
  }

  /** One pass through the locked section: refill, then take a token if there is a whole one. */
  function Poll(limit: Limit, level: Level, now: real): (Level, bool)
  {
    var full := Refill(limit, level, now);
    if full.tokens >= 1.0 then (full.(tokens := full.tokens - 1.0), true) else (full, false)
  }

  function Wait(limit: Limit, level: Level): real
    requires limit.perSecond != 0.0
  {
    (1.0 - level.tokens) / limit.perSecond
  }

  lemma RefillWithin(limit: Limit, level: Level, now: real)
    requires limit.Valid() && level.Within(limit)
    ensures Refill(limit, level, now).Within(limit) && Refill(limit, level, now).lastRefill >= level.lastRefill
    ensures level.lastRefill <= now ==> Refill(limit, level, now).lastRefill == now
    ensures level.lastRefill <= now ==>
      Refill(limit, level, now).tokens <= level.tokens + limit.perSecond * (now - level.lastRefill)
    ensures Refill(limit, level, now).tokens >= level.tokens
  {
    if now > level.lastRefill {
      assert (now - level.lastRefill) * limit.perSecond > 0.0;
    }
  }

  class AsyncTokenBucket {
    const limit: Limit
    var level: Level

    ghost predicate Valid()
      reads this
    {
      limit.Valid() && level.Within(limit)
    }

    constructor (limit: Limit, now: real)
      requires limit.Valid()
      ensures Valid() && this.limit == limit && level == Level(limit.capacity as real, now)
    {
      this.limit := limit;
      this.level := Level(limit.capacity as real, now);
    }

    /** `acquire`, given the clock readings its passes see. */
    method Acquire(clock: seq<real>) returns (granted: bool, polls: nat, waited: real)
      requires Valid()
      modifies this`level
      ensures Valid() && Attempt(level, granted, polls, waited) == Attempts(limit, old(level), clock)
    {
      polls, granted, waited := 0, false, 0.0;
      ghost var goal := Attempts(limit, level, clock);
      assert clock[0..] == clock;
      while polls < |clock|
        invariant polls <= |clock| && Valid()
        invariant var rest := Attempts(limit, level, clock[polls..]);
                  goal == Attempt(rest.level, rest.granted, polls + rest.polls, waited + rest.waited)
      {
        var now := clock[polls];
        assert clock[polls..][0] == now && clock[polls..][1..] == clock[polls + 1..];
        RefillWithin(limit, level, now);
        level := Refill(limit, level, now);
        polls := polls + 1;
        if level.tokens >= 1.0 {
          level := level.(tokens := level.tokens - 1.0);
          granted := true;
          return;
        }
        waited := waited + Wait(limit, level);
      }
    }
  }

  /** Without a grant the caller is still waiting after the last reading. */
  datatype Attempt = Attempt(level: Level, granted: bool, polls: nat, waited: real)

  function Attempts(limit: Limit, level: Level, clock: seq<real>): Attempt
    requires limit.perSecond != 0.0
    decreases |clock|
  {
    if clock == [] then Attempt(level, false, 0, 0.0)
    else
      var (next, granted) := Poll(limit, level, clock[0]);
      if granted then Attempt(next, true, 1, 0.0)
      else
        var rest := Attempts(limit, next, clock[1..]);
        Attempt(rest.level, rest.granted, rest.polls + 1, Wait(limit, next) + rest.waited)
  }

  lemma Product(x: real, y: real)
    requires x >= 0.0 && y > 0.0
    ensures x * y >= 0.0
  {
  }

  /** Waiting at least missing / rate lets the missing amount flow in. */
  lemma EnoughTime(missing: real, rate: real, elapsed: real)
    requires rate > 0.0 && elapsed >= missing / rate
    ensures elapsed * rate >= missing
  {
    Product(elapsed - missing / rate, rate);
    assert (missing / rate) * rate == missing;
  }

  /** With no competing caller, sleeping once for the computed time is enough. */
  lemma OneWaitSuffices(limit: Limit, level: Level, clock: seq<real>)
    requires limit.Valid() && level.Within(limit) && |clock| >= 2 && level.lastRefill <= clock[0]
    requires clock[1] >= clock[0] + Wait(limit, Poll(limit, level, clock[0]).0)
    ensures Attempts(limit, level, clock).granted && Attempts(limit, level, clock).polls <= 2
  {
    RefillWithin(limit, level, clock[0]);
    var (mid, granted) := Poll(limit, level, clock[0]);
    if !granted {
      EnoughTime(1.0 - mid.tokens, limit.perSecond, clock[1] - clock[0]);
      assert Poll(limit, mid, clock[1]).1;
      assert clock[1..][0] == clock[1];
    }
  }

  // ----- Grants over an interval -----

  ghost predicate NonDecreasing(times: seq<real>)
  {
    forall i, j :: 0 <= i < j < |times| ==> times[i] <= times[j]
  }

  /** How many polls are granted at times within `[from, until]`. */
  ghost function GrantsIn(limit: Limit, level: Level, times: seq<real>, from: real, until: real): real
    decreases |times|
  {
    if times == [] then 0.0
    else
      var (next, granted) := Poll(limit, level, times[0]);
      (if granted && from <= times[0] <= until then 1.0 else 0.0) + GrantsIn(limit, next, times[1..], from, until)
  }

  /** What flows in between two instants. */
  ghost function Inflow(limit: Limit, a: real, b: real): real
  {
    limit.perSecond * (b - a)
  }

  lemma InflowSplits(limit: Limit, a: real, b: real, c: real)
    requires limit.Valid() && a <= b <= c
    ensures Inflow(limit, a, c) == Inflow(limit, a, b) + Inflow(limit, b, c)
    ensures Inflow(limit, a, b) >= 0.0 && Inflow(limit, b, c) >= 0.0
  {
  }

  lemma PollDrains(limit: Limit, level: Level, now: real)
    requires limit.Valid() && level.Within(limit) && level.lastRefill <= now
    ensures var (next, granted) := Poll(limit, level, now);
            && next.Within(limit) && next.lastRefill == now
            && next.tokens + (if granted then 1.0 else 0.0) <= level.tokens + Inflow(limit, level.lastRefill, now)
            && next.tokens + (if granted then 1.0 else 0.0) <= limit.capacity as real
  {
    RefillWithin(limit, level, now);
  }

  lemma {:induction false} NoGrantsAfter(limit: Limit, level: Level, times: seq<real>, from: real, until: real)
    requires NonDecreasing(times) && (times != [] ==> times[0] > until)
    ensures GrantsIn(limit, level, times, from, until) == 0.0
    decreases |times|
  {
    if times != [] {
      NoGrantsAfter(limit, Poll(limit, level, times[0]).0, times[1..], from, until);
    }
  }

  /** Once the interval has begun, grants are paid for by the tokens in the bucket and the time left. */
  lemma {:induction false} GrantsInside(limit: Limit, level: Level, times: seq<real>, from: real, until: real)
    requires limit.Valid() && level.Within(limit) && NonDecreasing(times)
    requires level.lastRefill <= until && (times != [] ==> level.lastRefill <= times[0])
    ensures GrantsIn(limit, level, times, from, until) <= level.tokens + Inflow(limit, level.lastRefill, until)
    decreases |times|
  {
    if times == [] || times[0] > until {
      NoGrantsAfter(limit, level, times, from, until);
      InflowSplits(limit, level.lastRefill, until, until);
    } else {
      var (next, granted) := Poll(limit, level, times[0]);
      PollDrains(limit, level, times[0]);
      GrantsInside(limit, next, times[1..], from, until);
      InflowSplits(limit, level.lastRefill, times[0], until);
    }
  }

  /** Whoever polls and however often, an interval sees at most a full bucket plus what flows in during it. */
  lemma {:induction false} GrantsBounded(limit: Limit, level: Level, times: seq<real>, from: real, until: real)
    requires limit.Valid() && level.Within(limit) && NonDecreasing(times) && from <= until
    requires times != [] ==> level.lastRefill <= times[0]
    ensures GrantsIn(limit, level, times, from, until) <= limit.capacity as real + Inflow(limit, from, until)
    decreases |times|
  {
    if times == [] || times[0] > until {
      NoGrantsAfter(limit, level, times, from, until);
      InflowSplits(limit, from, until, until);
    } else {
      var (next, granted) := Poll(limit, level, times[0]);
      PollDrains(limit, level, times[0]);
      if times[0] < from {
        GrantsBounded(limit, next, times[1..], from, until);
      } else {
        GrantsInside(limit, next, times[1..], from, until);
        InflowSplits(limit, from, times[0], until);
      }
    }
  }

  // ----- What a grant costs -----

  /** The bucket after polls at these times. */
  ghost function Final(limit: Limit, level: Level, times: seq<real>): Level
    decreases |times|
  {
    if times == [] then level else Final(limit, Poll(limit, level, times[0]).0, times[1..])
  }

  ghost function Grants(limit: Limit, level: Level, times: seq<real>): nat
    decreases |times|
  {
    if times == [] then 0
    else
      var (next, granted) := Poll(limit, level, times[0]);
      (if granted then 1 else 0) + Grants(limit, next, times[1..])
  }

  /** What flowed in while the bucket was full. */
  ghost function Spilled(limit: Limit, level: Level, times: seq<real>): real
    decreases |times|
  {
    if times == [] then 0.0
    else
      var excess := level.tokens + Inflow(limit, level.lastRefill, times[0]) - limit.capacity as real;
      (if excess > 0.0 then excess else 0.0) + Spilled(limit, Poll(limit, level, times[0]).0, times[1..])
  }

  lemma PollCosts(limit: Limit, level: Level, now: real)
    requires limit.Valid() && level.Within(limit) && level.lastRefill <= now
    ensures var (next, granted) := Poll(limit, level, now);
      var full := level.tokens + Inflow(limit, level.lastRefill, now);
      && next.Within(limit) && next.lastRefill == now
      && next.tokens + (if granted then 1.0 else 0.0) == Min(limit.capacity as real, full)
      && (granted <==> full >= 1.0)
  {
    RefillWithin(limit, level, now);
    var elapsed := now - level.lastRefill;
    assert Inflow(limit, level.lastRefill, now) == elapsed * limit.perSecond;
    if elapsed == 0.0 {
      assert Inflow(limit, level.lastRefill, now) == 0.0;
    }
  }

  /** Start plus inflow is what was granted, one token each, plus what spilled, plus what is left. */
  lemma {:induction false} TokensConserved(limit: Limit, level: Level, times: seq<real>)
    requires limit.Valid() && level.Within(limit) && NonDecreasing(times)
    requires times != [] ==> level.lastRefill <= times[0]
    ensures var end := Final(limit, level, times);
      && end.Within(limit) && end.lastRefill == (if times == [] then level.lastRefill else times[|times| - 1])
      && level.tokens + Inflow(limit, level.lastRefill, end.lastRefill)
         == end.tokens + Grants(limit, level, times) as real + Spilled(limit, level, times)
      && Spilled(limit, level, times) >= 0.0
    decreases |times|
  {
    if times != [] {
      var next := Poll(limit, level, times[0]).0;
      PollCosts(limit, level, times[0]);
      TokensConserved(limit, next, times[1..]);
      var end := Final(limit, level, times);
      assert end.lastRefill == times[|times| - 1];
      InflowSplits(limit, level.lastRefill, times[0], end.lastRefill);
    } else {
      assert Inflow(limit, level.lastRefill, level.lastRefill) == limit.perSecond * 0.0;
    }
  }

  /** As many polls at one instant are granted as there are whole tokens. */
  lemma {:induction false} BurstGrants(limit: Limit, level: Level, now: real, times: seq<real>)
    requires limit.Valid() && level.Within(limit) && level.lastRefill == now
    requires forall i :: 0 <= i < |times| ==> times[i] == now
    ensures level.tokens >= |times| as real ==> Grants(limit, level, times) == |times|
    ensures level.tokens < |times| as real ==> Grants(limit, level, times) == level.tokens.Floor
    decreases |times|
  {
    if times != [] {
      var next := Poll(limit, level, now).0;
      PollCosts(limit, level, now);
      BurstGrants(limit, next, now, times[1..]);
      assert next.tokens < 0.0 + 1.0 && !Poll(limit, level, now).1 ==> next.tokens.Floor == 0;
    }
  }

  /** A bucket with a token for each of several polls at one later instant grants them all. */
  lemma BurstGrantsAll(limit: Limit, level: Level, now: real, times: seq<real>)
    requires limit.Valid() && level.Within(limit) && level.lastRefill <= now
    requires (forall i :: 0 <= i < |times| ==> times[i] == now) && level.tokens >= |times| as real
    ensures Grants(limit, level, times) == |times|
  {
    if times != [] {
      RefillWithin(limit, level, now);
      PollCosts(limit, level, now);
      BurstGrants(limit, Poll(limit, level, now).0, now, times[1..]);
    }
  }

  /** Without a competitor the next poll is granted exactly from the end of the computed wait on. */
  lemma WaitIsExact(limit: Limit, level: Level, now: real, later: real)
    requires limit.Valid() && level.Within(limit) && level.lastRefill <= now <= later
    requires !Poll(limit, level, now).1
    ensures Poll(limit, Poll(limit, level, now).0, later).1 <==> later >= now + Wait(limit, Poll(limit, level, now).0)
  {
    var next := Poll(limit, level, now).0;
    PollCosts(limit, level, now);
    PollCosts(limit, next, later);
    var missing := 1.0 - next.tokens;
    assert (missing / limit.perSecond) * limit.perSecond == missing;
    if later >= now + Wait(limit, next) {
      EnoughTime(missing, limit.perSecond, later - now);
    } else {
      Shortfall(missing, limit.perSecond, later - now);
    }
  }

  lemma Shortfall(missing: real, rate: real, elapsed: real)
    requires rate > 0.0 && elapsed < missing / rate
    ensures elapsed * rate < missing
  {
    var d := missing / rate - elapsed;
    assert d * rate > 0.0;
    assert (missing / rate) * rate == missing;
  }

  /** An acquisition polls until the first grant, and its waits are those computed for the denied polls. */
  lemma {:induction false} AcquisitionIsPolling(limit: Limit, level: Level, clock: seq<real>)
    requires limit.perSecond != 0.0
    ensures var a := Attempts(limit, level, clock);
      && a.polls <= |clock| && (!a.granted ==> a.polls == |clock|) && (a.granted ==> a.polls >= 1)
      && a.level == Final(limit, level, clock[..a.polls])
      && Grants(limit, level, clock[..a.polls]) == (if a.granted then 1 else 0)
    decreases |clock|
  {
    if clock != [] {
      var (next, granted) := Poll(limit, level, clock[0]);
      if granted {
        assert clock[..1][0] == clock[0] && clock[..1][1..] == [];
      } else {
        AcquisitionIsPolling(limit, next, clock[1..]);
        var p := Attempts(limit, next, clock[1..]).polls;
        assert clock[..p + 1][0] == clock[0] && clock[..p + 1][1..] == clock[1..][..p];
      }
    }
  }
}
