/**
 A continued network-test session: a pull-based reader of router output, driven by an
 arbitrary script of replies and by the time each of them takes.
 */
module NetworkTestSession {
  import opened Bytes

  type Line = seq<byte>

  /** Milliseconds between the end of one response and the next poll. */
  const POLL_INTERVAL: nat := 1000

  datatype Response = Response(message: seq<Line>, continued: bool)

  datatype Verb = Post | Get | Delete

  /** What the router does next: a decoded response or a failure, and how long it takes. */
  datatype Reply = Reply(decoded: Option<Response>, elapsed: nat)

  datatype Exchange = Exchange(verb: Verb, sentAt: nat, decoded: Option<Response>, doneAt: nat)

  /** A session with its surroundings: the replies to come, the clock and the requests sent so far. */
  datatype View = View(
    pending: Option<seq<Line>>,
    continued: bool,
    nextPoll: nat,
    script: seq<Reply>,
    now: nat,
    sent: seq<Exchange>
  )

  datatype Poll = Chunk(lines: seq<Line>) | End | PollFailed

  function PendingOf(response: Response): Option<seq<Line>> {
    if response.message == [] then None else Some(response.message)
  }

  /** One exchange; a script that ran out fails every further request at once. */
  function Send(v: View, verb: Verb): (Option<Response>, View) {
    var reply := if v.script == [] then Reply(None, 0) else v.script[0];
    var done := v.now + reply.elapsed;
    (reply.decoded,
     v.(script := if v.script == [] then [] else v.script[1..], now := done,
        sent := v.sent + [Exchange(verb, v.now, reply.decoded, done)]))
  }

  function Absorb(v: View, response: Response): View {
    v.(pending := PendingOf(response), continued := response.continued, nextPoll := v.now + POLL_INTERVAL)
  }

  function SleepUntilPoll(v: View): View {
    v.(now := if v.now < v.nextPoll then v.nextPoll else v.now)
  }

  function NextChunkOf(v: View): (Poll, View)
    decreases |v.script|
  {
    if v.pending.Some? then (Chunk(v.pending.value), v.(pending := None))
    else if !v.continued then (End, v)
    else
      var (response, w) := Send(SleepUntilPoll(v), Get);
      if response.None? then (PollFailed, w) else NextChunkOf(Absorb(w, response.value))
  }

  /** Ranks sessions by what is left to read. */
  function Left(v: View): nat {
    2 * |v.script| + if v.pending.Some? then 1 else 0
  }

  lemma {:induction false} ChunkLeavesLess(v: View)
    ensures Left(NextChunkOf(v).1) <= Left(v)
    ensures NextChunkOf(v).0.Chunk? ==> Left(NextChunkOf(v).1) < Left(v)
    decreases |v.script|
  {
    if v.pending.None? && v.continued {
      var (response, w) := Send(SleepUntilPoll(v), Get);
      if response.Some? { ChunkLeavesLess(Absorb(w, response.value)); }
    }
  }

  /** Appends every remaining chunk to `lines`; nothing is returned when a poll fails. */
  function CollectOf(v: View, lines: seq<Line>): (Option<seq<Line>>, View)
    decreases Left(v)
  {
    ChunkLeavesLess(v);
    var (poll, w) := NextChunkOf(v);
    match poll
    case Chunk(more) => CollectOf(w, lines + more)
    case End => (Some(lines), w)
    case PollFailed => (None, w)
  }

  function Unread(v: View): seq<Line> {
    if v.pending.Some? then v.pending.value else []
  }

  /** Takes the session apart; the unread lines are lost with it when the DELETE fails. */
  function CancelOf(v: View): (Option<seq<Line>>, View) {
    var rest := v.(pending := None, continued := false);
    if !v.continued then (Some(Unread(v)), rest)
    else
      var (response, w) := Send(rest, Delete);
      (if response.None? then None else Some(Unread(v) + response.value.message), w)
  }

  // ---------- the session object ----------

  class Router {
    var script: seq<Reply>
    var now: nat
    var sent: seq<Exchange>

    constructor (script: seq<Reply>, now: nat, sent: seq<Exchange>)
      ensures this.script == script && this.now == now && this.sent == sent
    {
      this.script, this.now, this.sent := script, now, sent;
    }

    method SleepUntil(deadline: nat)
      modifies this`now
      ensures now == if old(now) < deadline then deadline else old(now)
    {
      if now < deadline {
        now := deadline;
      }
    }

    method SendJson(verb: Verb) returns (response: Option<Response>)
      modifies this
      ensures forall p, c, n ::
                Send(View(p, c, n, old(script), old(now), old(sent)), verb)
                == (response, View(p, c, n, script, now, sent))
    {
      var reply := Reply(None, 0);
      if script != [] {
        reply := script[0];
        script := script[1..];
      }
      sent := sent + [Exchange(verb, now, reply.decoded, now + reply.elapsed)];
      now := now + reply.elapsed;
      response := reply.decoded;
    }
  }

  class Session {
    const router: Router
    var pending: Option<seq<Line>>
    var continued: bool
    var nextPoll: nat

    constructor (router: Router, response: Response)
      ensures this.router == router
      ensures Current() == Absorb(View(None, false, 0, router.script, router.now, router.sent), response)
    {
      this.router := router;
      pending, continued, nextPoll := PendingOf(response), response.continued, router.now + POLL_INTERVAL;
    }

    function Current(): View
      reads this, router
    {
      View(pending, continued, nextPoll, router.script, router.now, router.sent)
    }

    method NextChunk() returns (r: Poll)
      modifies this, router
      ensures NextChunkOf(old(Current())) == (r, Current())
    {
      while true
        invariant NextChunkOf(old(Current())) == NextChunkOf(Current())
        decreases |router.script|
      {
        if pending.Some? {
          r := Chunk(pending.value);
          pending := None;
          return;
        }
        if !continued {
          return End;
        }
        router.SleepUntil(nextPoll);
        var response := router.SendJson(Get);
        if response.None? {
          return PollFailed;
        }
        pending, continued := PendingOf(response.value), response.value.continued;
        nextPoll := router.now + POLL_INTERVAL;
      }
    }

    method Collect() returns (r: Option<seq<Line>>)
      modifies this, router
      ensures CollectOf(old(Current()), []) == (r, Current())
    {
      var lines := [];
      ChunkLeavesLess(Current());
      var poll := NextChunk();
      while poll.Chunk?
        invariant CollectOf(old(Current()), [])
               == match poll
                  case Chunk(more) => CollectOf(Current(), lines + more)
                  case End => (Some(lines), Current())
                  case PollFailed => (None, Current())
        decreases Left(Current()), poll.Chunk?
      {
        lines := lines + poll.lines;
        ChunkLeavesLess(Current());
        poll := NextChunk();
      }
      r := if poll.End? then Some(lines) else None;
    }

    method Cancel() returns (r: Option<seq<Line>>)
      modifies this, router
      ensures CancelOf(old(Current())) == (r, Current())
    {
      var unread, open := pending, continued;
      pending, continued := None, false;
      var lines := [];
      if unread.Some? {
        lines := lines + unread.value;
        assert lines == unread.value;
      }
      if open {
        var response := router.SendJson(Delete);
        if response.None? {
          return None;
        }
        lines := lines + response.value.message;
      }
      r := Some(lines);
    }

    method IsFinished() returns (r: bool)
      ensures r <==> NextChunkOf(Current()) == (End, Current())
      ensures !r ==> NextChunkOf(Current()).0.Chunk? || |NextChunkOf(Current()).1.sent| > |Current().sent|
    {
      r := pending.None? && !continued;
      if !r { UnfinishedActs(Current()); }
    }
  }

  predicate Finished(v: View) {
    v.pending.None? && !v.continued
  }

  /** A session that is not finished hands out a chunk or sends a request at its next call. */
  lemma UnfinishedActs(v: View)
    requires !Finished(v)
    ensures var (poll, w) := NextChunkOf(v);
            if v.pending.Some? then poll.Chunk? && w != v else |w.sent| > |v.sent|
  {
    if v.pending.None? {
      var (response, w) := Send(SleepUntilPoll(v), Get);
      if response.Some? { var more := NextChunkAdds(Absorb(w, response.value)); }
    }
  }

  // ---------- what a session has received and may send ----------

  /** Decoded responses, in order. */
  function Received(sent: seq<Exchange>): seq<Response> {
    if sent == [] then []
    else
      var last := sent[|sent| - 1];
      Received(sent[..|sent| - 1]) + if last.decoded.Some? then [last.decoded.value] else []
  }

  /** Everything the router sent in these exchanges, in order. */
  function Output(sent: seq<Exchange>): seq<Line> {
    if sent == [] then []
    else Output(sent[..|sent| - 1]) + Message(sent[|sent| - 1])
  }

  function Message(e: Exchange): seq<Line> {
    if e.decoded.Some? then e.decoded.value.message else []
  }

  /** End of the last decoded exchange. */
  function LastReceipt(sent: seq<Exchange>): nat {
    if sent == [] then 0
    else
      var last := sent[|sent| - 1];
      if last.decoded.Some? then last.doneAt else LastReceipt(sent[..|sent| - 1])
  }

  /** Every request after the first is a GET that follows up a continued response in due time. */
  predicate DueGet(sent: seq<Exchange>, k: nat)
    requires k < |sent|
  {
    var before := Received(sent[..k]);
    sent[k].verb == Get && before != [] && before[|before| - 1].continued
    && LastReceipt(sent[..k]) + POLL_INTERVAL <= sent[k].sentAt
  }

  ghost predicate Orderly(v: View) {
    var received := Received(v.sent);
    && v.sent != [] && v.sent[0].verb == Post && v.sent[0].decoded.Some?
    && (forall k :: 1 <= k < |v.sent| ==> DueGet(v.sent, k))
    && received != []
    && (forall i :: 0 <= i < |received| - 1 ==> received[i].continued)
    && v.continued == received[|received| - 1].continued
    && v.nextPoll == LastReceipt(v.sent) + POLL_INTERVAL
    && (v.pending.Some? ==> v.pending.value != [])
  }

  /** The session that a decoded POST starts. */
  function Started(script: seq<Reply>, sentAt: nat, elapsed: nat, response: Response): View {
    var done := sentAt + elapsed;
    Absorb(View(None, false, 0, script, done, [Exchange(Post, sentAt, Some(response), done)]), response)
  }

  lemma StartedIsOrderly(script: seq<Reply>, sentAt: nat, elapsed: nat, response: Response)
    ensures var v := Started(script, sentAt, elapsed, response);
            Orderly(v) && Output(v.sent) == Unread(v)
  {
    var sent := Started(script, sentAt, elapsed, response).sent;
    assert sent[..0] == [] && sent == [sent[0]];
    assert Received(sent) == [response];
    OutputOfOne(sent[0]);
  }

  lemma ReceivedSnoc(sent: seq<Exchange>, e: Exchange)
    ensures Received(sent + [e])
         == if e.decoded.Some? then Received(sent) + [e.decoded.value] else Received(sent)
    ensures LastReceipt(sent + [e]) == if e.decoded.Some? then e.doneAt else LastReceipt(sent)
  {
    assert (sent + [e])[..|sent|] == sent && Received(sent) + [] == Received(sent);
  }

  lemma OutputSnoc(sent: seq<Exchange>, e: Exchange)
    ensures Output(sent + [e]) == Output(sent) + Message(e)
  {
    assert (sent + [e])[..|sent|] == sent;
  }

  lemma OutputOfOne(e: Exchange)
    ensures Output([e]) == Message(e)
  {
    assert [e][..0] == [];
    assert [] + Message(e) == Message(e);
  }

  /** `delivered` has been handed out; together with the unread lines it is everything received. */
  ghost predicate Conserved(v: View, delivered: seq<Line>) {
    Orderly(v) && delivered + Unread(v) == Output(v.sent)
  }

  lemma AppendIsOrderly(v: View, w: View, e: Exchange)
    requires Orderly(v) && v.continued && e.verb == Get && v.nextPoll <= e.sentAt && w.sent == v.sent + [e]
    requires if e.decoded.None? then (w.pending, w.continued, w.nextPoll) == (v.pending, v.continued, v.nextPoll)
             else w.pending == PendingOf(e.decoded.value) && w.continued == e.decoded.value.continued
                  && w.nextPoll == e.doneAt + POLL_INTERVAL
    ensures Orderly(w)
  {
    ReceivedSnoc(v.sent, e);
    forall k | 1 <= k < |w.sent| ensures DueGet(w.sent, k) {
      assert w.sent[..k] == v.sent[..k];
      if k < |v.sent| {
        assert DueGet(v.sent, k);
      } else {
        assert v.sent[..k] == v.sent;
      }
    }
  }

  /** One poll keeps the discipline; when it fails, the session is exactly as before. */
  lemma PollConserves(v: View, delivered: seq<Line>)
    requires Conserved(v, delivered) && v.pending.None? && v.continued
    ensures var (response, w) := Send(SleepUntilPoll(v), Get);
            if response.None? then
              Conserved(w, delivered) && (w.pending, w.continued, w.nextPoll) == (v.pending, v.continued, v.nextPoll)
            else
              Conserved(Absorb(w, response.value), delivered)
              && Received(w.sent) == Received(v.sent) + [response.value]
  {
    var (response, w) := Send(SleepUntilPoll(v), Get);
    var e := w.sent[|v.sent|];
    ReceivedSnoc(v.sent, e);
    OutputSnoc(v.sent, e);
    assert delivered + [] == delivered && Output(v.sent) + [] == Output(v.sent);
    if response.None? {
      AppendIsOrderly(v, w, e);
    } else {
      AppendIsOrderly(v, Absorb(w, response.value), e);
    }
  }

  /** One call: a chunk is never empty, and the end of output means a finished session. */
  lemma {:induction false} NextChunkConserves(v: View, delivered: seq<Line>)
    requires Conserved(v, delivered)
    ensures var (poll, w) := NextChunkOf(v);
            && Conserved(w, delivered + Lines(poll))
            && (poll.Chunk? ==> poll.lines != [] && w.pending.None?)
            && (poll.End? ==> Finished(w))
            && (poll.PollFailed? ==> w.pending.None? && w.continued)
    decreases |v.script|
  {
    assert delivered + [] == delivered;
    if v.pending.Some? {
      assert Unread(v.(pending := None)) == [];
    } else if v.continued {
      PollConserves(v, delivered);
      var (response, w) := Send(SleepUntilPoll(v), Get);
      if response.Some? { NextChunkConserves(Absorb(w, response.value), delivered); }
    }
  }

  // ---------- what a call adds to the requests ----------

  lemma {:induction false} OutputConcat(a: seq<Exchange>, b: seq<Exchange>)
    ensures Output(a + b) == Output(a) + Output(b)
  {
    if b == [] {
      assert a + b == a;
    } else {
      var front, last := b[..|b| - 1], b[|b| - 1];
      OutputConcat(a, front);
      OutputSnoc(a + front, last);
      assert a + b == a + front + [last];
      Associative(Output(a), Output(front), Message(last));
    }
  }

  /** Every exchange but perhaps the last was decoded; `failed` says that the last was not. */
  predicate FailsLast(exchanges: seq<Exchange>, failed: bool) {
    (failed <==> exchanges != [] && exchanges[|exchanges| - 1].decoded.None?)
    && forall i :: 0 <= i < |exchanges| - 1 ==> exchanges[i].decoded.Some?
  }

  lemma FailsThen(a: seq<Exchange>, b: seq<Exchange>, failed: bool)
    requires FailsLast(a, false) && FailsLast(b, failed)
    ensures FailsLast(a + b, failed)
  {
    if b == [] { assert a + b == a; }
  }

  /** Taking `lines` from a session with `before` unread leaves `after` unread, given what `more` brought. */
  predicate Balanced(before: seq<Line>, more: seq<Exchange>, lines: seq<Line>, after: seq<Line>) {
    lines + after == before + Output(more)
  }

  lemma BalancedThen(before: seq<Line>, a: seq<Exchange>, first: seq<Line>, between: seq<Line>, b: seq<Exchange>,
                     second: seq<Line>, after: seq<Line>)
    requires Balanced(before, a, first, between) && Balanced(between, b, second, after)
    ensures Balanced(before, a + b, first + second, after)
  {
    OutputConcat(a, b);
    Regroup(first, between, before, Output(a), second, after, Output(b));
  }

  lemma Regroup(a: seq<Line>, b: seq<Line>, c: seq<Line>, d: seq<Line>, e: seq<Line>, f: seq<Line>, g: seq<Line>)
    requires a + b == c + d && e + f == b + g
    ensures a + e + f == c + (d + g)
  {
    Associative(a, e, f);
    Associative(a, b, g);
    Associative(c, d, g);
  }

  /** From `v` to `w` the exchanges `more` were made, and `lines` were taken from the session. */
  predicate Adds(v: View, more: seq<Exchange>, w: View, lines: seq<Line>, failed: bool) {
    w.sent == v.sent + more && FailsLast(more, failed) && Balanced(Unread(v), more, lines, Unread(w))
  }

  lemma AddsThen(v: View, a: seq<Exchange>, m: View, b: seq<Exchange>, w: View, first: seq<Line>,
                 second: seq<Line>, failed: bool)
    requires Adds(v, a, m, first, false) && Adds(m, b, w, second, failed)
    ensures Adds(v, a + b, w, first + second, failed)
  {
    FailsThen(a, b, failed);
    BalancedThen(Unread(v), a, first, Unread(m), b, second, Unread(w));
    Associative(v.sent, a, b);
  }

  lemma PollAdds(v: View)
    requires v.pending.None?
    ensures var (response, w) := Send(v, Get);
            |w.sent| == |v.sent| + 1
            && var more := [w.sent[|v.sent|]];
               if response.None? then Adds(v, more, w, [], true)
               else Adds(v, more, Absorb(w, response.value), [], false)
  {
    OutputOfOne(Send(v, Get).1.sent[|v.sent|]);
  }

  lemma {:induction false} NextChunkAdds(v: View) returns (more: seq<Exchange>)
    ensures var (poll, w) := NextChunkOf(v); Adds(v, more, w, Lines(poll), poll.PollFailed?)
    decreases |v.script|
  {
    more := [];
    if v.pending.None? && v.continued {
      PollAdds(SleepUntilPoll(v));
      var (response, w) := Send(SleepUntilPoll(v), Get);
      more := [w.sent[|v.sent|]];
      if response.Some? {
        var u := Absorb(w, response.value);
        var rest := NextChunkAdds(u);
        var (poll, x) := NextChunkOf(u);
        AddsThen(v, more, u, rest, x, [], Lines(poll), poll.PollFailed?);
        assert [] + Lines(poll) == Lines(poll);
        more := more + rest;
      }
    }
  }

  lemma {:induction false} CollectAdds(v: View, lines: seq<Line>) returns (more: seq<Exchange>, gathered: seq<Line>)
    ensures var (output, w) := CollectOf(v, lines);
            && Adds(v, more, w, gathered, output.None?) && w.pending.None?
            && (output.Some? ==> Finished(w) && output.value == lines + gathered)
    decreases Left(v)
  {
    ChunkLeavesLess(v);
    ChunkClears(v);
    more := NextChunkAdds(v);
    var (poll, m) := NextChunkOf(v);
    gathered := Lines(poll);
    if poll.Chunk? {
      var rest, others := CollectAdds(m, lines + poll.lines);
      var (output, w) := CollectOf(m, lines + poll.lines);
      AddsThen(v, more, m, rest, w, poll.lines, others, output.None?);
      Associative(lines, poll.lines, others);
      more, gathered := more + rest, poll.lines + others;
    }
  }

  lemma {:induction false} ChunkClears(v: View)
    ensures var (poll, w) := NextChunkOf(v);
            w.pending.None? && (poll.End? ==> Finished(w))
    decreases |v.script|
  {
    if v.pending.None? && v.continued {
      var (response, w) := Send(SleepUntilPoll(v), Get);
      if response.Some? { ChunkClears(Absorb(w, response.value)); }
    }
  }

  // ---------- when requests go out ----------

  /**
   The exchanges from index `from` on are polls: the first goes out at the later of `now` and
   `due`, each further one a second after the response before it.
   */
  predicate Paced(sent: seq<Exchange>, from: nat, now: nat, due: nat) {
    forall k :: from <= k < |sent| ==>
      sent[k].verb == Get
      && sent[k].sentAt == if k == from then (if now < due then due else now) else sent[k - 1].doneAt + 1000
  }

  /** From `v` to `w` only paced polls were made, and the clock stands at the end of the last one. */
  predicate Prompt(v: View, w: View) {
    v.sent <= w.sent && Paced(w.sent, |v.sent|, v.now, v.nextPoll)
    && w.now == if w.sent == v.sent then v.now else w.sent[|w.sent| - 1].doneAt
  }

  lemma PollIsPrompt(v: View)
    ensures var (response, w) := Send(SleepUntilPoll(v), Get);
            w.sent != v.sent && Prompt(v, w) && (response.Some? ==> Prompt(v, Absorb(w, response.value)))
  {}

  /** Behind polls that ended with a response, further ones keep the pace. */
  lemma PromptThen(v: View, m: View, w: View)
    requires Prompt(v, m) && Prompt(m, w)
    requires if m.sent == v.sent then m.nextPoll == v.nextPoll else m.nextPoll == m.now + 1000
    ensures Prompt(v, w)
  {
    if m.sent != v.sent && w.sent != m.sent { assert m.sent[|m.sent| - 1] == w.sent[|m.sent| - 1]; }
  }

  /** A call returns at once, or when its last poll is answered; its polls go out when they are due. */
  lemma {:induction false} NextChunkIsPrompt(v: View)
    ensures var (poll, w) := NextChunkOf(v);
            && Prompt(v, w) && (v.pending.Some? || !v.continued <==> w.sent == v.sent)
            && (!poll.PollFailed? ==> w.nextPoll == if w.sent == v.sent then v.nextPoll else w.now + 1000)
    decreases |v.script|
  {
    if v.pending.None? && v.continued {
      var (response, m) := Send(SleepUntilPoll(v), Get);
      PollIsPrompt(v);
      if response.Some? {
        NextChunkIsPrompt(Absorb(m, response.value));
        PromptThen(v, Absorb(m, response.value), NextChunkOf(v).1);
      }
    }
  }

  /** The polls of `collect` follow each other in the same way. */
  lemma {:induction false} CollectIsPrompt(v: View, lines: seq<Line>)
    ensures Prompt(v, CollectOf(v, lines).1)
    decreases Left(v)
  {
    ChunkLeavesLess(v);
    NextChunkIsPrompt(v);
    var (poll, m) := NextChunkOf(v);
    if poll.Chunk? {
      CollectIsPrompt(m, lines + poll.lines);
      PromptThen(v, m, CollectOf(v, lines).1);
    }
  }

  /** A DELETE goes out at once. */
  lemma CancelIsPrompt(v: View)
    ensures var w := CancelOf(v).1;
            if v.continued then |w.sent| == |v.sent| + 1 && w.sent[|v.sent|].verb == Delete
                                && w.sent[|v.sent|].sentAt == v.now && w.now == w.sent[|v.sent|].doneAt
            else w.sent == v.sent && w.now == v.now
  {}

  // ---------- whole sessions ----------

  function Lines(poll: Poll): seq<Line> {
    if poll.Chunk? then poll.lines else []
  }

  /** The caller lets `pause` milliseconds go by. */
  function Later(v: View, pause: nat): View {
    v.(now := v.now + pause)
  }

  /** Results of successive calls of `next_chunk`, one after each pause, whether they succeed or fail. */
  function Polls(v: View, pauses: seq<nat>): (seq<Poll>, View)
    decreases |pauses|
  {
    if pauses == [] then ([], v)
    else
      var (poll, w) := NextChunkOf(Later(v, pauses[0]));
      var (rest, u) := Polls(w, pauses[1..]);
      ([poll] + rest, u)
  }

  function Delivered(polls: seq<Poll>): seq<Line> {
    if polls == [] then []
    else Lines(polls[0]) + Delivered(polls[1..])
  }

  lemma DeliveredPrepend(delivered: seq<Line>, poll: Poll, rest: seq<Poll>)
    ensures delivered + Delivered([poll] + rest) == delivered + Lines(poll) + Delivered(rest)
  {
    assert ([poll] + rest)[1..] == rest;
  }

  lemma {:induction false} PollsConserve(v: View, delivered: seq<Line>, pauses: seq<nat>)
    requires Conserved(v, delivered)
    ensures Conserved(Polls(v, pauses).1, delivered + Delivered(Polls(v, pauses).0))
    ensures forall poll :: poll in Polls(v, pauses).0 && poll.Chunk? ==> poll.lines != []
    decreases |pauses|
  {
    if pauses != [] {
      var (poll, w) := NextChunkOf(Later(v, pauses[0]));
      NextChunkConserves(Later(v, pauses[0]), delivered);
      PollsConserve(w, delivered + Lines(poll), pauses[1..]);
      DeliveredPrepend(delivered, poll, Polls(w, pauses[1..]).0);
    } else {
      assert delivered + [] == delivered;
    }
  }

  lemma {:induction false} CollectIsOrderly(v: View, delivered: seq<Line>, lines: seq<Line>)
    requires Conserved(v, delivered)
    ensures Orderly(CollectOf(v, lines).1)
    decreases Left(v)
  {
    ChunkLeavesLess(v);
    NextChunkConserves(v, delivered);
    var (poll, w) := NextChunkOf(v);
    if poll.Chunk? { CollectIsOrderly(w, delivered + poll.lines, lines + poll.lines); }
  }

  datatype Ending = Collecting | Cancelling

  function FinishWith(v: View, ending: Ending): (Option<seq<Line>>, View) {
    if ending.Collecting? then CollectOf(v, []) else CancelOf(v)
  }

  lemma CancelAdds(v: View) returns (more: seq<Exchange>)
    ensures var (output, w) := CancelOf(v);
            && w.sent == v.sent + more && FailsLast(more, output.None?)
            && (output.Some? ==> Finished(w) && output.value == Unread(v) + Output(more))
            && if v.continued then |more| == 1 && more[0].verb == Delete else more == []
  {
    more := [];
    if v.continued {
      more := [CancelOf(v).1.sent[|v.sent|]];
      OutputOfOne(more[0]);
    }
  }

  /**
   An ending fails exactly when its last poll or its DELETE is not decoded. It then loses all
   lines that a successful one would have returned: the unread ones and those received in it.
   */
  lemma EndingIsExact(v: View, ending: Ending) returns (more: seq<Exchange>)
    ensures var (output, w) := FinishWith(v, ending);
            && w.sent == v.sent + more && FailsLast(more, output.None?)
            && (output.Some? ==> Finished(w) && output.value == Unread(v) + Output(more))
            && (ending.Cancelling? ==> if v.continued then |more| == 1 && more[0].verb == Delete else more == [])
  {
    if ending.Collecting? {
      var gathered;
      more, gathered := CollectAdds(v, []);
      assert [] + gathered == gathered == gathered + [];
    } else {
      more := CancelAdds(v);
    }
  }

  /** The session after some calls, seen from its start. */
  lemma PollsOfStarted(script: seq<Reply>, sentAt: nat, elapsed: nat, first: Response, pauses: seq<nat>)
    ensures var (polls, v) := Polls(Started(script, sentAt, elapsed, first), pauses);
            Conserved(v, Delivered(polls))
            && (forall poll :: poll in polls && poll.Chunk? ==> poll.lines != [])
  {
    var start := Started(script, sentAt, elapsed, first);
    StartedIsOrderly(script, sentAt, elapsed, first);
    assert [] + Unread(start) == Unread(start);
    PollsConserve(start, [], pauses);
    assert [] + Delivered(Polls(start, pauses).0) == Delivered(Polls(start, pauses).0);
  }

  /**
   An ending from `v` to `w` gathers the unread lines and those of its own exchanges. They complete
   what was delivered before, and are its output unless its last request failed.
   */
  predicate Completes(v: View, w: View, delivered: seq<Line>, output: Option<seq<Line>>) {
    v.sent <= w.sent
    && var more := w.sent[|v.sent|..];
       var gathered := Unread(v) + Output(more);
    && Output(w.sent) == delivered + gathered
    && output == (if more != [] && more[|more| - 1].decoded.None? then None else Some(gathered))
    && (output.Some? ==> Finished(w))
  }

  lemma EndingConserves(v: View, delivered: seq<Line>, ending: Ending)
    requires Conserved(v, delivered)
    ensures var (output, w) := FinishWith(v, ending);
            Completes(v, w, delivered, output)
  {
    var more := EndingIsExact(v, ending);
    assert (v.sent + more)[|v.sent|..] == more;
    OutputConcat(v.sent, more);
    Associative(delivered, Unread(v), Output(more));
  }

  /** Cancelling sends a DELETE exactly when the router still continues, and nothing otherwise. */
  lemma CancelConserves(v: View, delivered: seq<Line>)
    requires Conserved(v, delivered)
    ensures var (output, w) := CancelOf(v);
            && (if v.continued then |w.sent| == |v.sent| + 1 && w.sent[..|v.sent|] == v.sent
                                    && w.sent[|v.sent|].verb == Delete
                else w.sent == v.sent && output.Some?)
            && (output.Some? ==> Finished(w) && delivered + output.value == Output(w.sent))
  {
    var more := EndingIsExact(v, Cancelling);
    EndingConserves(v, delivered, Cancelling);
  }

  /**
   Conservation over a whole session: for any script, any `next_chunk` calls at any pace and
   either ending, the chunks and what the ending gathers are the messages received, in order,
   the DELETE reply included. The ending returns what it gathers unless its last request fails.
   */
  lemma SessionConserves(script: seq<Reply>, sentAt: nat, elapsed: nat, first: Response,
                         pauses: seq<nat>, pause: nat, ending: Ending)
    ensures var (polls, v) := Polls(Started(script, sentAt, elapsed, first), pauses);
            var (output, w) := FinishWith(Later(v, pause), ending);
            && (forall poll :: poll in polls && poll.Chunk? ==> poll.lines != [])
            && Completes(v, w, Delivered(polls), output)
  {
    PollsOfStarted(script, sentAt, elapsed, first, pauses);
    var (polls, v) := Polls(Started(script, sentAt, elapsed, first), pauses);
    EndingConserves(Later(v, pause), Delivered(polls), ending);
  }

  function CountDecodedGets(sent: seq<Exchange>): nat {
    if sent == [] then 0
    else
      var last := sent[|sent| - 1];
      CountDecodedGets(sent[..|sent| - 1]) + if last.verb == Get && last.decoded.Some? then 1 else 0
  }

  function CountContinued(responses: seq<Response>): nat {
    if responses == [] then 0
    else CountContinued(responses[..|responses| - 1]) + if responses[|responses| - 1].continued then 1 else 0
  }

  lemma {:induction false} AllContinued(responses: seq<Response>)
    requires forall i :: 0 <= i < |responses| ==> responses[i].continued
    ensures CountContinued(responses) == |responses|
  {
    if responses != [] { AllContinued(responses[..|responses| - 1]); }
  }

  lemma {:induction false} DecodedGets(sent: seq<Exchange>)
    requires sent != [] && sent[0].verb == Post && sent[0].decoded.Some?
    requires forall k :: 1 <= k < |sent| ==> sent[k].verb == Get
    ensures CountDecodedGets(sent) + 1 == |Received(sent)|
  {
    if |sent| == 1 {
      assert sent[..0] == [];
    } else {
      DecodedGets(sent[..|sent| - 1]);
    }
  }

  /** Decoded GETs are as many as the continued responses followed up, all but one still open. */
  lemma OrderlyCounts(v: View)
    requires Orderly(v)
    ensures CountDecodedGets(v.sent) == CountContinued(Received(v.sent)) - (if v.continued then 1 else 0)
  {
    forall k | 1 <= k < |v.sent| ensures v.sent[k].verb == Get { assert DueGet(v.sent, k); }
    DecodedGets(v.sent);
    AllContinued(Received(v.sent)[..|Received(v.sent)| - 1]);
  }

  /** The requests `sent` up to `n` are orderly, and a DELETE may follow them. */
  ghost predicate Disciplined(sent: seq<Exchange>, n: int, deleted: bool, open: bool) {
    && 0 < n <= |sent| && sent[0].verb == Post && (forall k :: 1 <= k < n ==> DueGet(sent, k))
    && (if deleted then |sent| == n + 1 && sent[n].verb == Delete else |sent| == n)
    && CountDecodedGets(sent) == CountContinued(Received(sent[..n])) - (if deleted || open then 1 else 0)
  }

  lemma OrderlyIsDisciplined(v: View)
    requires Orderly(v)
    ensures Disciplined(v.sent, |v.sent|, false, v.continued)
  {
    OrderlyCounts(v);
    assert v.sent[..|v.sent|] == v.sent;
  }

  lemma DeleteIsDisciplined(v: View, e: Exchange)
    requires Orderly(v) && v.continued && e.verb == Delete
    ensures Disciplined(v.sent + [e], |v.sent|, true, false)
  {
    var n, sent := |v.sent|, v.sent + [e];
    OrderlyCounts(v);
    assert sent[..n] == v.sent;
    forall k | 1 <= k < n ensures DueGet(sent, k) {
      assert DueGet(v.sent, k) && sent[..k] == v.sent[..k];
    }
  }

  /** An ending adds due GETs when it collects, and one DELETE or nothing when it cancels. */
  ghost predicate EndsDisciplined(before: seq<Exchange>, continued: bool, w: View, ending: Ending) {
    var deleted := ending.Cancelling? && continued;
    && Disciplined(w.sent, |w.sent| - (if deleted then 1 else 0), deleted, w.continued)
    && before <= w.sent && (ending.Cancelling? ==> |w.sent| == |before| + if deleted then 1 else 0)
  }

  lemma CollectExtends(v: View, lines: seq<Line>)
    ensures v.sent <= CollectOf(v, lines).1.sent
  {
    var more, gathered := CollectAdds(v, lines);
  }

  lemma CollectIsDisciplined(v: View, delivered: seq<Line>)
    requires Conserved(v, delivered)
    ensures EndsDisciplined(v.sent, v.continued, CollectOf(v, []).1, Collecting)
  {
    CollectExtends(v, []);
    CollectIsOrderly(v, delivered, []);
    OrderlyIsDisciplined(CollectOf(v, []).1);
  }

  lemma CancelIsDisciplined(v: View)
    requires Orderly(v)
    ensures EndsDisciplined(v.sent, v.continued, CancelOf(v).1, Cancelling)
  {
    if v.continued {
      DeleteIsDisciplined(v, CancelOf(v).1.sent[|v.sent|]);
    } else {
      OrderlyIsDisciplined(v);
    }
  }

  /**
   Request discipline of a whole session, at any pace of its caller: one POST; then only GETs,
   each at least one interval after the last decoded response, which was continued; then one
   DELETE exactly when the session is cancelled while it continues. The decoded GETs are as many
   as the continued responses that were followed up: all, except the one a DELETE answers or a
   failed `collect` leaves open.
   */
  lemma RequestDiscipline(script: seq<Reply>, sentAt: nat, elapsed: nat, first: Response,
                          pauses: seq<nat>, pause: nat, ending: Ending)
    ensures var v := Polls(Started(script, sentAt, elapsed, first), pauses).1;
            EndsDisciplined(v.sent, v.continued, FinishWith(Later(v, pause), ending).1, ending)
  {
    PollsOfStarted(script, sentAt, elapsed, first, pauses);
    var (polls, v) := Polls(Started(script, sentAt, elapsed, first), pauses);
    if ending.Collecting? {
      CollectIsDisciplined(Later(v, pause), Delivered(polls));
    } else {
      CancelIsDisciplined(Later(v, pause));
    }
  }

  /** A finished session stays finished, delivers nothing and sends nothing, however it is used. */
  lemma {:induction false} FinishedStaysSilent(v: View, pauses: seq<nat>, pause: nat, ending: Ending)
    requires Finished(v)
    ensures var (polls, w) := Polls(v, pauses);
            && w == v.(now := w.now) && (forall i :: 0 <= i < |polls| ==> polls[i] == End)
            && FinishWith(Later(w, pause), ending) == (Some([]), Later(w, pause))
    decreases |pauses|
  {
    if pauses != [] { FinishedStaysSilent(Later(v, pauses[0]), pauses[1..], pause, ending); }
  }
}
