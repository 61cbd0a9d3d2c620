/**
  The stdio client of eap/environment/mcp_client.py: its read loops over a stream that arrives
  in arbitrary pieces, and the matching of replies to requests by id. JSON is a given function
  on payloads.
 */
module McpClient {
  import opened Wrappers
  import opened Framing

  /** A decoded message: ids are integers; notifications have none. */
  datatype Message = Message(id: Option<int>, error: Option<string>, result: string)

  type Parser = Bytes -> Option<Message>

  /** The first message that carries the id, and the bytes after it. */
  function Await(parse: Parser, s: Bytes, id: int): Result<(Message, Bytes), Error>
    decreases |s|
  {
    var f := ReadFrame(s);
    if f.Failure? then Failure(f.error)
    else
      var m := parse(f.value.0);
      if m.None? then Failure(BadJson)
      else if m.value.id == Some(id) then Success((m.value, f.value.1))
      else Await(parse, f.value.1, id)
  }

  function Reply(m: Message): Result<string, Error>
  {
    if m.error.Some? then Failure(ServerError(m.error.value)) else Success(m.result)
  }

  class MCPStdioClient {
    const parse: Parser
    var incoming: Bytes
    var outgoing: Bytes
    var requestId: nat

    constructor (parse: Parser, incoming: Bytes)
      ensures this.parse == parse && this.incoming == incoming && outgoing == [] && requestId == 0
    {
      this.parse := parse;
      this.incoming, outgoing, requestId := incoming, [], 0;
    }

    method WriteMessage(raw: Bytes)
      modifies this`outgoing
      ensures outgoing == old(outgoing) + Frame(raw)
    {
      outgoing := outgoing + (Ascii(Header(|raw|)) + raw);
    }

    /** `os.read`: some of what is there, nothing only at end of stream. */
    method Receive(limit: nat) returns (chunk: Bytes)
      requires limit >= 1
      modifies this`incoming
      ensures old(incoming) == chunk + incoming && |chunk| <= limit
      ensures chunk == [] <==> old(incoming) == []
    {
      if incoming == [] {
        return [];
      }
      var n: nat :| 1 <= n <= limit && n <= |incoming|;
      chunk := incoming[..n];
      incoming := incoming[n..];
    }

    method ReadUntil(polls: seq<bool>) returns (r: Result<Bytes, Error>, left: seq<bool>, ghost taken: Bytes)
      modifies this`incoming
      ensures Taken(polls, left, taken, old(incoming), incoming)
      ensures r.Failure? ==> r.error == TimedOut && left == [] && !Contains(taken)
      ensures r.Success? ==> r.value == taken && |taken| == HeaderOf(old(incoming)) && true in polls
    {
      ghost var all := incoming;
      var data: Bytes := [];
      left := polls;
      while !Contains(data)
        invariant Polled(polls, left, data) && all == data + incoming
        invariant forall m :: 0 <= m < |data| ==> !Contains(all[..m])
        decreases |left|
      {
        if left == [] {
          return Failure(TimedOut), [], data;
        }
        var readable := left[0];
        PolledOnce(polls, left, data);
        left := left[1..];
        if readable {
          var chunk := Receive(1);
          if chunk == [] {
            break;
          }
          assert all[..|data|] == data;
          data := data + chunk;
        }
      }
      assert true in polls;
      assert all[..|data|] == data;
      HeaderUnique(all, |data|);
      r, taken := Success(data), data;
    }

    method ReadExact(count: int, polls: seq<bool>)
        returns (r: Result<Bytes, Error>, left: seq<bool>, ghost taken: Bytes)
      modifies this`incoming
      ensures Taken(polls, left, taken, old(incoming), incoming)
      ensures r == Failure(TimedOut) ==> left == [] && |taken| < count
      ensures r.Success? ==> ReadBody(old(incoming), count) == Success((r.value, incoming))
      ensures r.Failure? && r.error != TimedOut ==> ReadBody(old(incoming), count) == Failure(r.error)
    {
      ghost var all := incoming;
      var data: Bytes := [];
      left := polls;
      while |data| < count
        invariant Polled(polls, left, data) && all == data + incoming
        invariant |data| <= count || data == []
        decreases |left|
      {
        if left == [] {
          return Failure(TimedOut), [], data;
        }
        var readable := left[0];
        PolledOnce(polls, left, data);
        left := left[1..];
        if readable {
          var chunk := Receive(count - |data|);
          if chunk == [] {
            return Failure(ClosedInBody), left, data;
          }
          data := data + chunk;
        }
      }
      assert all[..|data|] == data && all[|data|..] == incoming;
      r, taken := Success(data), data;
    }

    /**
      However the bytes arrive, a read that does not run out of time gets what the stream holds. One that
      does has taken a beginning of the stream that is no whole message, and nothing if nothing was readable.
     */
    method ReadMessage(polls: seq<bool>) returns (r: Result<Bytes, Error>, left: seq<bool>, ghost taken: Bytes)
      modifies this`incoming
      ensures Taken(polls, left, taken, old(incoming), incoming)
      ensures r == Failure(TimedOut) ==> left == [] && Unfinished(old(incoming), |taken|)
      ensures r.Success? ==> ReadFrame(old(incoming)) == Success((r.value, incoming)) && taken != []
      ensures r.Failure? && r.error != TimedOut ==> ReadFrame(old(incoming)) == Failure(r.error)
      ensures r == Failure(ClosedBeforeHeader) ==> old(incoming) == []
      ensures r != Failure(TimedOut) ==> true in polls
    {
      ghost var all := incoming;
      r, left, taken := ReadUntil(polls);
      assert all[..|taken|] == taken && all[|taken|..] == incoming;
      if r.Failure? {
        return;
      }
      var header := r.value;
      if header == [] {
        return Failure(ClosedBeforeHeader), left, taken;
      }
      var n := ParseContentLength(Decoded(header));
      if n.Failure? {
        HeaderErrors(Decoded(header));
        return Failure(n.error), left, taken;
      }
      ghost var more, waiting, body := [], left, incoming;
      r, left, more := ReadExact(n.value, left);
      TakenBoth(polls, waiting, left, taken, more, all, body, incoming);
      taken := taken + more;
    }

    /** Whole messages one after the other; on time-out the stream stands inside the next one. */
    method ReadMessages(count: nat, polls: seq<bool>)
        returns (payloads: seq<Bytes>, error: Option<Error>, ghost ss: seq<Bytes>, ghost part: nat)
      modifies this`incoming
      ensures Chain(payloads, ss) && ss[0] == old(incoming) && |payloads| <= count
      ensures error.None? ==> |payloads| == count && incoming == ss[count]
      ensures error == Some(TimedOut) ==> StopsInside(ss[|payloads|], part, incoming)
      ensures error.Some? && error.value != TimedOut ==> ReadFrame(ss[|payloads|]) == Failure(error.value)
    {
      payloads, ss, part := [], [incoming], 0;
      var left := polls;
      for k := 0 to count
        invariant Chain(payloads, ss) && ss[0] == old(incoming) && |payloads| == k && ss[k] == incoming
      {
        var one;
        ghost var taken;
        one, left, taken := ReadMessage(left);
        assert ss[k][|taken|..] == incoming;
        if one.Failure? {
          return payloads, Some(one.error), ss, |taken|;
        }
        ChainAppend(payloads, ss, one.value, incoming);
        payloads, ss := payloads + [one.value], ss + [incoming];
      }
      error := None;
    }

    /** Sends one request and skips every message that does not carry its id. */
    method Request(raw: Bytes, polls: seq<bool>) returns (r: Result<string, Error>, ghost x: Exchange)
      modifies this
      ensures requestId == old(requestId) + 1 && outgoing == old(outgoing) + Frame(raw)
      ensures Happened(parse, old(incoming), incoming, requestId, x, r)
      ensures x.Answered? && x.message.error.None? ==> r == Success(x.message.result)
      ensures x.Answered? && x.message.error.Some? ==> r == Failure(ServerError(x.message.error.value))
      ensures true !in polls ==> x == GaveUp([], 0)
    {
      requestId := requestId + 1;
      WriteMessage(raw);
      r, x := AwaitReply(requestId, polls);
    }

    method AwaitReply(id: nat, polls: seq<bool>) returns (r: Result<string, Error>, ghost x: Exchange)
      modifies this`incoming
      ensures Happened(parse, old(incoming), incoming, id, x, r)
      ensures true !in polls ==> x == GaveUp([], 0)
    {
      var left := polls;
      ghost var before, skipped, ss := incoming, [], [incoming];
      while true
        invariant Skipping(parse, before, id, skipped, ss, incoming)
        invariant true !in polls ==> skipped == [] && true !in left
        decreases |incoming|
      {
        var payload;
        ghost var stream, taken := incoming, [];
        payload, left, taken := ReadMessage(left);
        assert stream[|taken|..] == incoming;
        SkippingReads(parse, before, id, skipped, ss, stream);
        if payload == Failure(TimedOut) {
          assert Skips(parse, before, id, skipped, stream);
          return Failure(TimedOut), GaveUp(skipped, |taken|);
        }
        if payload.Failure? {
          return Failure(payload.error), Broken(payload.error);
        }
        var m := parse(payload.value);
        if m.None? {
          return Failure(BadJson), Broken(BadJson);
        }
        if m.value.id == Some(id) {
          return Reply(m.value), Answered(m.value);
        }
        skipped, ss := skipped + [payload.value], ss + [incoming];
      }
    }

    /** One request after the other. */
    method Converse(raws: seq<Bytes>, polls: seq<seq<bool>>)
        returns (replies: seq<Result<string, Error>>, ghost xs: seq<Exchange>)
      requires |polls| == |raws|
      modifies this
      ensures requestId == old(requestId) + |raws| && |replies| == |xs| == |raws|
      ensures Orderly(xs) ==> SessionTo(parse, old(incoming), old(requestId), xs, incoming)
      ensures forall j :: 0 <= j < |xs| && xs[j].Answered? ==> replies[j] == Reply(xs[j].message)
    {
      replies, xs := [], [];
      ghost var before, last := incoming, requestId;
      for k := 0 to |raws|
        invariant requestId == last + k && |replies| == |xs| == k
        invariant Orderly(xs) ==> SessionTo(parse, before, last, xs, incoming)
        invariant forall j :: 0 <= j < |xs| && xs[j].Answered? ==> replies[j] == Reply(xs[j].message)
      {
        ghost var stream := incoming;
        var r;
        ghost var x;
        r, x := Request(raws[k], polls[k]);
        SessionGoesOn(parse, before, last, xs, stream, x, incoming, r);
        replies, xs := replies + [r], xs + [x];
      }
    }
  }

  // ----- Polls -----

  /** `left` are the polls still to come; bytes were taken only by polls that found some. */
  ghost predicate Polled(polls: seq<bool>, left: seq<bool>, taken: Bytes)
  {
    && |left| <= |polls| && left == polls[|polls| - |left|..]
    && (taken != [] ==> true in polls)
  }

  /** The bytes taken are what the stream before has and the stream after has not. */
  ghost predicate Taken(polls: seq<bool>, left: seq<bool>, taken: Bytes, before: Bytes, after: Bytes)
  {
    Polled(polls, left, taken) && before == taken + after
  }

  lemma TakenBoth(
      polls: seq<bool>, mid: seq<bool>, left: seq<bool>, a: Bytes, b: Bytes, s: Bytes, s': Bytes, s'': Bytes)
    requires Taken(polls, mid, a, s, s') && Taken(mid, left, b, s', s'')
    ensures Taken(polls, left, a + b, s, s'')
  {
    PolledBoth(polls, mid, left, a, b);
    assert a + (b + s'') == a + b + s'';
  }

  lemma PolledOnce(polls: seq<bool>, left: seq<bool>, taken: Bytes)
    requires Polled(polls, left, taken) && left != []
    ensures Polled(polls, left[1..], taken) && (left[0] ==> true in polls)
  {
    assert left[0] == polls[|polls| - |left|];
  }

  lemma PolledBoth(polls: seq<bool>, mid: seq<bool>, left: seq<bool>, a: Bytes, b: Bytes)
    requires Polled(polls, mid, a) && Polled(mid, left, b)
    ensures Polled(polls, left, a + b)
  {
    assert forall i :: 0 <= i < |mid| ==> mid[i] == polls[|polls| - |mid| + i];
    assert true in mid ==> true in polls;
  }

  lemma {:induction false} HeaderErrors(text: string)
    ensures ParseContentLength(text).Failure? ==> ParseContentLength(text).error in {MissingLength, BadNumber}
    decreases |text|
  {
    var line := FirstLine(text);
    if !IsLengthLine(line) && |line| != |text| {
      HeaderErrors(text[|line| + 2..]);
    }
  }

  // ----- Replies meet their requests -----

  ghost predicate AllParse(parse: Parser, ps: seq<Bytes>)
  {
    forall j :: 0 <= j < |ps| ==> parse(ps[j]).Some?
  }

  ghost predicate Carries(parse: Parser, p: Bytes, id: int)
  {
    parse(p).Some? && parse(p).value.id == Some(id)
  }

  /**
    On a stream of frames the answer to a request is the first message with its id. Whatever
    comes before it, replies to earlier requests that gave up waiting included, is skipped.
   */
  lemma {:induction false} FirstMatchingReply(parse: Parser, ps: seq<Bytes>, rest: Bytes, id: int, k: nat)
    requires AllParse(parse, ps) && k < |ps| && Carries(parse, ps[k], id)
    requires forall j :: 0 <= j < k ==> !Carries(parse, ps[j], id)
    ensures Await(parse, Frames(ps) + rest, id) == Success((parse(ps[k]).value, Frames(ps[k + 1..]) + rest))
    decreases k
  {
    var tail := Frames(ps[1..]) + rest;
    assert Frames(ps) + rest == Frame(ps[0]) + tail;
    FrameReadsBack(ps[0], tail);
    if k > 0 {
      assert !Carries(parse, ps[0], id);
      FirstMatchingReply(parse, ps[1..], rest, id, k - 1);
      assert ps[1..][k..] == ps[k + 1..];
    }
  }

  /** Without such a message the request gets no answer at all, rather than another's. */
  lemma {:induction false} NoReplyNoAnswer(parse: Parser, ps: seq<Bytes>, id: int)
    requires AllParse(parse, ps) && forall j :: 0 <= j < |ps| ==> !Carries(parse, ps[j], id)
    ensures Await(parse, Frames(ps), id) == Failure(ClosedBeforeHeader)
    decreases |ps|
  {
    if ps != [] {
      assert !Carries(parse, ps[0], id);
      FrameReadsBack(ps[0], Frames(ps[1..]));
      NoReplyNoAnswer(parse, ps[1..], id);
    }
  }

  /** Every payload is a message that does not carry the id. */
  ghost predicate AllOthers(parse: Parser, ps: seq<Bytes>, id: int)
  {
    forall j :: 0 <= j < |ps| ==> IsOther(parse, ps[j], id)
  }

  ghost predicate IsOther(parse: Parser, p: Bytes, id: int)
  {
    parse(p).Some? && !Carries(parse, p, id)
  }

  /** Reading these messages, none of which carries the id, leads from one stream to the other. */
  ghost predicate Skips(parse: Parser, s: Bytes, id: int, ps: seq<Bytes>, s': Bytes)
  {
    AllOthers(parse, ps, id) && exists ss :: Chain(ps, ss) && ss[0] == s && ss[|ps|] == s'
  }

  /** The answer is still to come, and only other messages have been skipped. */
  ghost predicate Skipping(parse: Parser, before: Bytes, id: int, ps: seq<Bytes>, ss: seq<Bytes>, s: Bytes)
  {
    && Await(parse, before, id) == Await(parse, s, id)
    && AllOthers(parse, ps, id) && Chain(ps, ss) && ss[0] == before && ss[|ps|] == s
  }

  /** What reading the next message means for the request. */
  lemma SkippingReads(parse: Parser, before: Bytes, id: int, ps: seq<Bytes>, ss: seq<Bytes>, s: Bytes)
    requires Skipping(parse, before, id, ps, ss, s)
    ensures ReadFrame(s).Failure? ==> Await(parse, before, id) == Failure(ReadFrame(s).error)
    ensures ReadFrame(s).Success? ==>
      var (payload, rest) := ReadFrame(s).value;
      && (parse(payload).None? ==> Await(parse, before, id) == Failure(BadJson))
      && (Carries(parse, payload, id) ==> Await(parse, before, id) == Success((parse(payload).value, rest)))
      && (IsOther(parse, payload, id) ==> Skipping(parse, before, id, ps + [payload], ss + [rest], rest))
  {
    if ReadFrame(s).Success? {
      var (payload, rest) := ReadFrame(s).value;
      ChainAppend(ps, ss, payload, rest);
    }
  }

  // ----- Sessions -----

  /** How a request went: answered; out of time after skipped messages and part of the next; or broken. */
  datatype Exchange = Answered(message: Message) | GaveUp(skipped: seq<Bytes>, part: nat) | Broken(error: Error)

  ghost predicate Happened(parse: Parser, before: Bytes, after: Bytes, id: int, x: Exchange, r: Result<string, Error>)
  {
    match x
    case Answered(m) => Await(parse, before, id) == Success((m, after)) && r == Reply(m)
    case GaveUp(skipped, part) =>
      r == Failure(TimedOut) && exists s :: Skips(parse, before, id, skipped, s) && StopsInside(s, part, after)
    case Broken(e) =>
      && r == Failure(e) && e != TimedOut && Await(parse, before, id) == Failure(e)
      && (e == ClosedBeforeHeader ==> after == [])
  }

  /** `part` bytes into an unfinished message. */
  ghost predicate StopsInside(s: Bytes, part: nat, after: Bytes)
  {
    Unfinished(s, part) && after == s[part..]
  }

  /** Every request was answered, gave up between two messages, or met the end of the stream. */
  ghost predicate Orderly(xs: seq<Exchange>)
  {
    forall j :: 0 <= j < |xs| ==> OrderlyExchange(xs[j])
  }

  predicate OrderlyExchange(x: Exchange)
  {
    x.Answered? || (x.GaveUp? && x.part == 0) || x == Broken(ClosedBeforeHeader)
  }

  lemma OrderlyParts(xs: seq<Exchange>, x: Exchange)
    requires Orderly(xs + [x])
    ensures Orderly(xs) && OrderlyExchange(x)
  {
    assert (xs + [x])[|xs|] == x;
    forall j | 0 <= j < |xs| ensures OrderlyExchange(xs[j]) {
      assert (xs + [x])[j] == xs[j];
    }
  }

  /** One orderly exchange leads from one stream to the other. */
  ghost predicate Leaves(parse: Parser, s: Bytes, id: int, x: Exchange, s': Bytes)
  {
    match x
    case Answered(m) => Await(parse, s, id) == Success((m, s'))
    case GaveUp(skipped, part) => part == 0 && Skips(parse, s, id, skipped, s')
    case Broken(e) => e == ClosedBeforeHeader && Await(parse, s, id) == Failure(e) && s' == []
  }

  /** Requests `last + 1`, `last + 2`, ... lead from one stream to the other. */
  ghost predicate SessionTo(parse: Parser, s: Bytes, last: nat, xs: seq<Exchange>, s': Bytes)
    decreases |xs|
  {
    if xs == [] then s' == s
    else exists mid :: FirstLeaves(parse, s, last, xs, mid) && SessionTo(parse, mid, last + 1, xs[1..], s')
  }

  ghost predicate FirstLeaves(parse: Parser, s: Bytes, last: nat, xs: seq<Exchange>, mid: Bytes)
  {
    xs != [] && Leaves(parse, s, last + 1, xs[0], mid)
  }

  lemma HappenedLeaves(parse: Parser, before: Bytes, after: Bytes, id: int, x: Exchange, r: Result<string, Error>)
    requires Happened(parse, before, after, id, x, r) && OrderlyExchange(x)
    ensures Leaves(parse, before, id, x, after)
  {
    if x.GaveUp? {
      var s :| Skips(parse, before, id, x.skipped, s) && StopsInside(s, x.part, after);
      assert s[0..] == s;
    }
  }

  lemma {:induction false} SessionMore(
      parse: Parser, s: Bytes, last: nat, xs: seq<Exchange>, mid: Bytes, x: Exchange, after: Bytes)
    requires SessionTo(parse, s, last, xs, mid) && Leaves(parse, mid, last + |xs| + 1, x, after)
    ensures SessionTo(parse, s, last, xs + [x], after)
    decreases |xs|
  {
    if xs == [] {
      SessionPrepend(parse, s, last, x, after, [], after);
      assert xs + [x] == [x] + [];
    } else {
      var next :| FirstLeaves(parse, s, last, xs, next) && SessionTo(parse, next, last + 1, xs[1..], mid);
      SessionMore(parse, next, last + 1, xs[1..], mid, x, after);
      SessionPrepend(parse, s, last, xs[0], next, xs[1..] + [x], after);
      assert xs + [x] == [xs[0]] + (xs[1..] + [x]);
    }
  }

  lemma SessionPrepend(parse: Parser, s: Bytes, last: nat, x: Exchange, next: Bytes, xs: seq<Exchange>, s': Bytes)
    requires Leaves(parse, s, last + 1, x, next) && SessionTo(parse, next, last + 1, xs, s')
    ensures SessionTo(parse, s, last, [x] + xs, s')
  {
    var all := [x] + xs;
    assert all[1..] == xs && FirstLeaves(parse, s, last, all, next);
  }

  lemma SessionGoesOn(
      parse: Parser, s: Bytes, last: nat, xs: seq<Exchange>, mid: Bytes, x: Exchange, after: Bytes,
      r: Result<string, Error>)
    requires Orderly(xs) ==> SessionTo(parse, s, last, xs, mid)
    requires Happened(parse, mid, after, last + |xs| + 1, x, r)
    ensures Orderly(xs + [x]) ==> SessionTo(parse, s, last, xs + [x], after)
  {
    if Orderly(xs + [x]) {
      OrderlyParts(xs, x);
      HappenedLeaves(parse, mid, after, last + |xs| + 1, x, r);
      SessionMore(parse, s, last, xs, mid, x, after);
    }
  }
}
