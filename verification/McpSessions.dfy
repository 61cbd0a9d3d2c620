/** What sessions of the stdio client guarantee, requests that ran out of time included. */
module McpSessions {
  import opened Wrappers
  import opened Framing
  import opened McpClient

  // ----- One exchange on a stream of messages -----

  /** A chain at whose end there is nothing. */
  ghost predicate Closes(ps: seq<Bytes>, ss: seq<Bytes>)
  {
    Chain(ps, ss) && ss[|ps|] == []
  }

  lemma NothingToRead()
    ensures ReadFrame([]).Failure?
  {
  }

  /** A part of a chain is a chain. */
  lemma ChainPart(ps: seq<Bytes>, ss: seq<Bytes>, i: nat)
    requires Chain(ps, ss) && i <= |ps|
    ensures Chain(ps[i..], ss[i..])
  {
    forall j | 0 <= j < |ps| - i ensures NextAt(ps[i..], ss[i..], j) {
      assert NextAt(ps, ss, i + j);
    }
  }

  lemma SkipFrames(parse: Parser, ps: seq<Bytes>, ss: seq<Bytes>, i: nat, id: int, qs: seq<Bytes>, s: Bytes)
    requires Closes(ps, ss) && i <= |ps| && Skips(parse, ss[i], id, qs, s)
    ensures i + |qs| <= |ps| && s == ss[i + |qs|]
  {
    var ts :| Chain(qs, ts) && ts[0] == ss[i] && ts[|qs|] == s;
    ChainPart(ps, ss, i);
    if |qs| > |ps| - i {
      ChainUnique(qs, ts, ps[i..], ss[i..], |ps| - i);
      assert NextAt(qs, ts, |ps| - i);
      NothingToRead();
    } else {
      ChainUnique(qs, ts, ps[i..], ss[i..], |qs|);
    }
  }

  /** Payload `k` of the stream is message `m`, which carries the id. */
  ghost predicate Delivers(parse: Parser, ps: seq<Bytes>, k: nat, m: Message, id: int)
  {
    k < |ps| && Carries(parse, ps[k], id) && parse(ps[k]).value == m
  }

  lemma {:induction false} AnswerIsDelivered(
      parse: Parser, ps: seq<Bytes>, ss: seq<Bytes>, i: nat, id: int, m: Message, s: Bytes) returns (k: nat)
    requires Closes(ps, ss) && i <= |ps| && Await(parse, ss[i], id) == Success((m, s))
    ensures i <= k && Delivers(parse, ps, k, m, id) && s == ss[k + 1]
    decreases |ps| - i
  {
    NothingToRead();
    assert i < |ps| && NextAt(ps, ss, i);
    if Carries(parse, ps[i], id) {
      k := i;
    } else {
      k := AnswerIsDelivered(parse, ps, ss, i + 1, id, m, s);
    }
  }

  /** An orderly exchange leaves a later stream of the chain, and its answer is one of the messages it consumed. */
  lemma ExchangeConsumes(parse: Parser, ps: seq<Bytes>, ss: seq<Bytes>, i: nat, id: int, x: Exchange, s: Bytes)
      returns (d: nat, k: nat)
    requires Closes(ps, ss) && i <= |ps| && Leaves(parse, ss[i], id, x, s)
    ensures i <= d <= |ps| && s == ss[d]
    ensures x.Answered? ==> i <= k < d && Delivers(parse, ps, k, x.message, id)
  {
    match x
    case Answered(m) =>
      k := AnswerIsDelivered(parse, ps, ss, i, id, m, s);
      d := k + 1;
    case GaveUp(skipped, _) =>
      SkipFrames(parse, ps, ss, i, id, skipped, s);
      d, k := i + |skipped|, i;
    case Broken(_) =>
      d, k := |ps|, i;
  }

  // ----- Whole sessions -----

  /** Places from `i` on for the answered requests: increasing, each holding the answer with its request's id. */
  ghost predicate Matched(parse: Parser, ps: seq<Bytes>, i: nat, last: nat, xs: seq<Exchange>, ks: seq<nat>)
  {
    && |ks| == |xs|
    && (forall j :: 0 <= j < |xs| && xs[j].Answered? ==>
      i <= ks[j] && Delivers(parse, ps, ks[j], xs[j].message, last + 1 + j))
    && (forall j, j' :: 0 <= j < j' < |xs| && xs[j].Answered? && xs[j'].Answered? ==> ks[j] < ks[j'])
  }

  lemma MatchedFirst(
      parse: Parser, ps: seq<Bytes>, i: nat, last: nat, d: nat, k: nat, xs: seq<Exchange>, more: seq<nat>)
    requires i <= d && xs != [] && Matched(parse, ps, d, last + 1, xs[1..], more)
    requires xs[0].Answered? ==> i <= k < d && Delivers(parse, ps, k, xs[0].message, last + 1)
    ensures Matched(parse, ps, i, last, xs, [k] + more)
  {
    var ks := [k] + more;
    forall j | 0 <= j < |xs| && xs[j].Answered?
      ensures i <= ks[j] && (j > 0 ==> d <= ks[j]) && Delivers(parse, ps, ks[j], xs[j].message, last + 1 + j)
    {
      if j > 0 {
        assert xs[1..][j - 1] == xs[j] && ks[j] == more[j - 1];
        assert Delivers(parse, ps, more[j - 1], xs[1..][j - 1].message, last + 1 + 1 + (j - 1));
      }
    }
    forall j, j' | 0 <= j < j' < |xs| && xs[j].Answered? && xs[j'].Answered? ensures ks[j] < ks[j'] {
      assert xs[1..][j' - 1] == xs[j'] && (j > 0 ==> xs[1..][j - 1] == xs[j]);
    }
  }

  lemma SessionFirst(parse: Parser, ps: seq<Bytes>, ss: seq<Bytes>, i: nat, last: nat, xs: seq<Exchange>, s: Bytes)
      returns (d: nat, k: nat)
    requires Closes(ps, ss) && i <= |ps| && xs != [] && SessionTo(parse, ss[i], last, xs, s)
    ensures i <= d <= |ps| && SessionTo(parse, ss[d], last + 1, xs[1..], s)
    ensures xs[0].Answered? ==> i <= k < d && Delivers(parse, ps, k, xs[0].message, last + 1)
  {
    var next :| FirstLeaves(parse, ss[i], last, xs, next) && SessionTo(parse, next, last + 1, xs[1..], s);
    d, k := ExchangeConsumes(parse, ps, ss, i, last + 1, xs[0], next);
  }

  /** Reading as many messages as were written gives the payloads and leaves what follows. */
  lemma MessagesReadBack(ps: seq<Bytes>, rest: Bytes, qs: seq<Bytes>, ss: seq<Bytes>)
    requires Chain(qs, ss) && ss[0] == Frames(ps) + rest && |qs| == |ps|
    ensures qs == ps && ss[|ps|] == rest
  {
    var ts := FramesReadBack(ps, rest);
    ChainUnique(qs, ss, ps, ts, |ps|);
    assert qs[..|ps|] == qs && ps[..|ps|] == ps;
  }

  lemma {:induction false} SessionMatches(
      parse: Parser, ps: seq<Bytes>, ss: seq<Bytes>, i: nat, last: nat, xs: seq<Exchange>, s: Bytes)
      returns (ks: seq<nat>)
    requires Closes(ps, ss) && i <= |ps| && SessionTo(parse, ss[i], last, xs, s)
    ensures Matched(parse, ps, i, last, xs, ks)
    decreases |xs|
  {
    if xs == [] {
      ks := [];
    } else {
      var d, k := SessionFirst(parse, ps, ss, i, last, xs, s);
      var more := SessionMatches(parse, ps, ss, d, last + 1, xs[1..], s);
      MatchedFirst(parse, ps, i, last, d, k, xs, more);
      ks := [k] + more;
    }
  }

  /**
    In any session on a stream of frames, requests that gave up between two messages included, the
    replies are distinct messages of the stream, in order, each with its own request's id: a late
    reply to an earlier request is never returned for a later one.
   */
  lemma RepliesMeetRequests(parse: Parser, ps: seq<Bytes>, last: nat, xs: seq<Exchange>, s: Bytes)
      returns (ks: seq<nat>)
    requires SessionTo(parse, Frames(ps), last, xs, s)
    ensures Matched(parse, ps, 0, last, xs, ks)
  {
    var ss := FramesReadBack(ps, []);
    assert Frames(ps) + [] == Frames(ps);
    ks := SessionMatches(parse, ps, ss, 0, last, xs, s);
  }
}
