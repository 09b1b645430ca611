/** The session protocol with one leaf: how a request is sent, and how a lost session is renewed.
    The leaf is whatever answers; its conduct is constrained only where a theorem says so. */
module LeafSession {
  import opened Common

  datatype Body = Initialize | InitializedNote | Call(json: string)

  /** A parsed JSON answer, with its `result` member set apart. */
  datatype Value = Value(result: Option<string>, json: string)

  datatype Request = Request(session: Option<string>, body: Body)

  /** No answer at all, an answer whose body could not be read, or a complete answer. */
  datatype Outcome =
    | NoReply
    | BodyLost(status: nat, issued: Option<string>)
    | Reply(status: nat, issued: Option<string>, value: Value)

  datatype Exchange = Exchange(request: Request, outcome: Outcome)

  datatype Failure = Unreachable | LeafError

  type Answer = Result<Value, Failure>

  predicate Success(status: nat) {
    200 <= status < 300
  }

  // ---------- The session id, read off the exchanges ----------

  function Issued(o: Outcome): Option<string> {
    if o.NoReply? then None else o.issued
  }

  /** The latest id captured since the last time it was cleared. */
  function SessionAfter(transport: Transport, before: Option<string>, calls: seq<Exchange>): Option<string> {
    if calls == [] then before
    else
      var last := calls[|calls| - 1];
      if transport.HttpPost? then before
      else if Issued(last.outcome).Some? then Issued(last.outcome)
      else if last.request.body.Initialize? then None
      else SessionAfter(transport, before, calls[..|calls| - 1])
  }

  /** The header a body is sent with. */
  function HeaderFor(transport: Transport, session: Option<string>, body: Body): Option<string> {
    if transport.HttpPost? || body.Initialize? then None else session
  }

  /** Every header sent is the latest id captured since the last clear. */
  predicate HeadersCurrent(transport: Transport, before: Option<string>, calls: seq<Exchange>) {
    calls != [] ==>
      var front, last := calls[..|calls| - 1], calls[|calls| - 1];
      && HeadersCurrent(transport, before, front)
      && last.request.session == HeaderFor(transport, SessionAfter(transport, before, front), last.request.body)
  }

  // ---------- Whole requests, read off the exchanges ----------

  predicate NeedsRetry(transport: Transport, status: nat, session: Option<string>) {
    transport.StreamableHttp? && (status == 404 || (status == 400 && session.None?))
  }

  predicate Answered(o: Outcome) {
    o.Reply? && Success(o.status)
  }

  /** What a caller makes of an answer that is not to be retried. */
  function Verdict(o: Outcome): Answer {
    if !o.Reply? then Err(Unreachable) else if Success(o.status) then Ok(o.value) else Err(LeafError)
  }

  function InitializeVerdict(o: Outcome): Result<string, Failure> {
    if !o.Reply? then Err(Unreachable)
    else if Success(o.status) && o.value.result.Some? then Ok(o.value.result.value)
    else Err(LeafError)
  }

  function Bodies(calls: seq<Exchange>): (bodies: seq<Body>)
    ensures |bodies| == |calls|
    ensures forall i :: 0 <= i < |calls| ==> bodies[i] == calls[i].request.body
  {
    seq(|calls|, i requires 0 <= i < |calls| => calls[i].request.body)
  }

  /** `calls` is a whole initialize call. */
  predicate InitializeRun(transport: Transport, before: Option<string>, calls: seq<Exchange>) {
    && calls != []
    && HeadersCurrent(transport, before, calls)
    && Bodies(calls) == if Answered(calls[0].outcome) then [Initialize, InitializedNote] else [Initialize]
  }

  /** Does the first exchange of a request call for a new session? */
  predicate Renews(transport: Transport, before: Option<string>, calls: seq<Exchange>)
    requires calls != []
  {
    var o := calls[0].outcome;
    o.Reply? && NeedsRetry(transport, o.status, SessionAfter(transport, before, calls[..1]))
  }

  /** `calls` is a whole request for `body`, and the caller gets `r`. */
  predicate RequestRun(transport: Transport, before: Option<string>, body: Body, calls: seq<Exchange>, r: Answer) {
    && calls != []
    && HeadersCurrent(transport, before, calls)
    && if !Renews(transport, before, calls) then Bodies(calls) == [body] && r == Verdict(calls[0].outcome)
       else
         && |calls| >= 2
         && var o := calls[1].outcome;
         match InitializeVerdict(o) {
           case Err(e) =>
             && Bodies(calls) == [body] + (if Answered(o) then [Initialize, InitializedNote] else [Initialize])
             && r == Err(e)
           case Ok(_) =>
             && Bodies(calls) == [body, Initialize, InitializedNote, body]
             && r == Verdict(calls[3].outcome)
         }
  }

  lemma {:induction false} SessionConcat(transport: Transport, before: Option<string>,
                                         a: seq<Exchange>, b: seq<Exchange>)
    ensures SessionAfter(transport, before, a + b) == SessionAfter(transport, SessionAfter(transport, before, a), b)
    decreases |b|
  {
    if b == [] {
      assert a + b == a;
    } else {
      assert (a + b)[..|a + b| - 1] == a + b[..|b| - 1];
      SessionConcat(transport, before, a, b[..|b| - 1]);
    }
  }

  lemma {:induction false} HeadersConcat(transport: Transport, before: Option<string>,
                                         a: seq<Exchange>, b: seq<Exchange>)
    ensures HeadersCurrent(transport, before, a + b)
            <==> && HeadersCurrent(transport, before, a)
                 && HeadersCurrent(transport, SessionAfter(transport, before, a), b)
    decreases |b|
  {
    if b == [] {
      assert a + b == a;
    } else {
      var front := b[..|b| - 1];
      assert (a + b)[..|a + b| - 1] == a + front;
      HeadersConcat(transport, before, a, front);
      SessionConcat(transport, before, a, front);
    }
  }

  // ---------- The client ----------

  /** The connection to the leaf. Its answers are not constrained. */
  class Wire {
    var calls: seq<Exchange>

    constructor ()
      ensures calls == []
    {
      calls := [];
    }

    method Post(request: Request) returns (outcome: Outcome)
      modifies this
      ensures calls == old(calls) + [Exchange(request, outcome)]
    {
      outcome := *;
      calls := calls + [Exchange(request, outcome)];
    }
  }

  class LeafClient {
    const transport: Transport
    const wire: Wire
    var sessionId: Option<string>

    constructor (transport: Transport, wire: Wire)
      ensures this.transport == transport && this.wire == wire && sessionId == None
    {
      this.transport := transport;
      this.wire := wire;
      sessionId := None;
    }

    /** One exchange, without retry. An id is captured even when the answer's body is then lost. */
    method SendOnce(body: Body) returns (r: Result<(nat, Value), Failure>, ghost call: Exchange)
      requires transport.StreamableHttp? && body.Initialize? ==> sessionId == None
      modifies this, wire
      ensures wire.calls == old(wire.calls) + [call]
      ensures call.request == Request(HeaderFor(transport, old(sessionId), body), body)
      ensures sessionId == SessionAfter(transport, old(sessionId), [call])
      ensures r == if call.outcome.Reply? then Ok((call.outcome.status, call.outcome.value)) else Err(Unreachable)
    {
      var request := Request(if transport.StreamableHttp? then sessionId else None, body);
      var outcome := wire.Post(request);
      call := Exchange(request, outcome);
      assert [call][..0] == [];
      if outcome.NoReply? {
        return Err(Unreachable), call;
      }
      if transport.StreamableHttp? && outcome.issued.Some? {
        sessionId := outcome.issued;
      }
      if outcome.BodyLost? {
        return Err(Unreachable), call;
      }
      return Ok((outcome.status, outcome.value)), call;
    }

    method Initialize() returns (r: Result<string, Failure>, ghost calls: seq<Exchange>)
      modifies this, wire
      ensures wire.calls == old(wire.calls) + calls
      ensures InitializeRun(transport, old(sessionId), calls)
      ensures r == InitializeVerdict(calls[0].outcome)
      ensures r.Ok? <==> var o := calls[0].outcome; o.Reply? && 200 <= o.status <= 299 && o.value.result.Some?
      ensures sessionId == SessionAfter(transport, old(sessionId), calls)
    {
      ghost var before := sessionId;
      if transport.StreamableHttp? {
        sessionId := None;
      }
      var sent, call := SendOnce(Body.Initialize);
      calls := [call];
      assert calls[..0] == [];
      if sent.Err? {
        return Err(sent.error), calls;
      }
      if !Success(sent.value.0) {
        return Err(LeafError), calls;
      }
      var _, note := SendOnce(InitializedNote);
      HeadersConcat(transport, before, calls, [note]);
      SessionConcat(transport, before, calls, [note]);
      assert [note][..0] == [];
      calls := calls + [note];
      match sent.value.1.result {
        case Some(v) => return Ok(v), calls;
        case None => return Err(LeafError), calls;
      }
    }

    /** One request. A lost session is renewed once, and the request sent again. */
    method SendRequest(body: Body) returns (r: Answer, ghost calls: seq<Exchange>)
      requires body.Call?
      modifies this, wire
      ensures wire.calls == old(wire.calls) + calls
      ensures RequestRun(transport, old(sessionId), body, calls, r)
      ensures sessionId == SessionAfter(transport, old(sessionId), calls)
    {
      ghost var before := sessionId;
      var sent, call := SendOnce(body);
      calls := [call];
      assert calls[..0] == [] && calls[..1] == calls;
      if sent.Err? {
        return Err(sent.error), calls;
      }
      var (status, value) := sent.value;
      if transport.StreamableHttp? {
        if status == 404 || (status == 400 && sessionId.None?) {
          var initialized, renewal := Initialize();
          HeadersConcat(transport, before, calls, renewal);
          SessionConcat(transport, before, calls, renewal);
          calls := calls + renewal;
          assert calls[..1] == [call];
          if initialized.Err? {
            return Err(initialized.error), calls;
          }
          var again, last := SendOnce(body);
          HeadersConcat(transport, before, calls, [last]);
          SessionConcat(transport, before, calls, [last]);
          assert [last][..0] == [];
          calls := calls + [last];
          assert calls[..1] == [call];
          if again.Err? {
            return Err(again.error), calls;
          }
          if !Success(again.value.0) {
            return Err(LeafError), calls;
          }
          return Ok(again.value.1), calls;
        }
      }
      if !Success(status) {
        return Err(LeafError), calls;
      }
      return Ok(value), calls;
    }
  }

  // ---------- Any leaf whatsoever ----------

  /** No id captured and none cleared. */
  predicate Quiet(calls: seq<Exchange>, lo: nat, hi: nat)
    requires hi <= |calls|
  {
    forall k :: lo <= k < hi ==> Issued(calls[k].outcome).None? && !calls[k].request.body.Initialize?
  }

  /** Exchange `j` left the client with this session, and no exchange before `hi` changed it again. */
  predicate LastSetAt(calls: seq<Exchange>, j: nat, hi: nat, session: Option<string>)
    requires j < hi <= |calls|
  {
    && Quiet(calls, j + 1, hi)
    && if Issued(calls[j].outcome).Some? then session == Issued(calls[j].outcome)
       else calls[j].request.body.Initialize? && session == None
  }

  lemma {:induction false} SessionOrigin(before: Option<string>, calls: seq<Exchange>, session: Option<string>)
    requires session == SessionAfter(StreamableHttp, before, calls)
    ensures if Quiet(calls, 0, |calls|) then session == before
            else exists j: nat :: j < |calls| && LastSetAt(calls, j, |calls|, session)
    decreases |calls|
  {
    if calls != [] {
      var n := |calls| - 1;
      var front := calls[..n];
      var earlier := SessionAfter(StreamableHttp, before, front);
      SessionOrigin(before, front, earlier);
      if Issued(calls[n].outcome).Some? || calls[n].request.body.Initialize? {
        assert !Quiet(calls, 0, |calls|) by { assert calls[n] == calls[|calls| - 1]; }
        assert LastSetAt(calls, n, |calls|, session);
      } else if !Quiet(front, 0, n) {
        var j: nat :| j < n && LastSetAt(front, j, n, earlier);
        assert LastSetAt(calls, j, |calls|, session);
      } else {
        assert Quiet(calls, 0, |calls|);
      }
    }
  }

  lemma {:induction false} HeaderAt(transport: Transport, before: Option<string>, calls: seq<Exchange>, i: nat)
    requires HeadersCurrent(transport, before, calls) && i < |calls|
    ensures calls[i].request.session
            == HeaderFor(transport, SessionAfter(transport, before, calls[..i]), calls[i].request.body)
    decreases |calls|
  {
    var front := calls[..|calls| - 1];
    if i < |front| {
      HeaderAt(transport, before, front, i);
      assert front[..i] == calls[..i];
    }
  }

  /** Theorem: whatever the leaf answers, a request sends its body at most twice and initializes at most
      once, and says exactly when it does either. */
  lemma AtMostOneRenewal(transport: Transport, before: Option<string>, body: Body, calls: seq<Exchange>, r: Answer)
    requires body.Call? && RequestRun(transport, before, body, calls, r)
    ensures multiset(Bodies(calls))[Initialize] == if Renews(transport, before, calls) then 1 else 0
    ensures multiset(Bodies(calls))[body]
            == if Renews(transport, before, calls) && InitializeVerdict(calls[1].outcome).Ok? then 2 else 1
    ensures Renews(transport, before, calls) ==> transport.StreamableHttp? && |calls| >= 2
    ensures r.Ok? ==> Answered(calls[|calls| - 1].outcome) && calls[|calls| - 1].request.body == body
                      && r.value == calls[|calls| - 1].outcome.value
  {
  }

  /** A request is renewed exactly when the leaf answers 404, or 400 while no id is held. */
  lemma RenewsExactly(transport: Transport, before: Option<string>, calls: seq<Exchange>)
    requires calls != []
    ensures Renews(transport, before, calls) <==>
              && transport.StreamableHttp? && calls[0].outcome.Reply?
              && (calls[0].outcome.status == 404
                  || (calls[0].outcome.status == 400 && SessionAfter(transport, before, calls[..1]) == None))
  {
  }

  /** Theorem: whatever the leaf answers, the request succeeds exactly when its last exchange carries the body and is
      answered with 200 to 299, and the caller gets that answer. It is unreachable exactly when the exchange that ends
      it has no complete answer: the last one, unless that is the notification of a new session. */
  lemma RequestEnds(transport: Transport, before: Option<string>, body: Body, calls: seq<Exchange>, r: Answer)
    requires body.Call? && RequestRun(transport, before, body, calls, r)
    ensures var last := calls[|calls| - 1];
            && (r.Ok? <==> last.request.body == body && last.outcome.Reply? && 200 <= last.outcome.status <= 299)
            && (r.Ok? ==> r.value == last.outcome.value)
            && (r == Err(Unreachable) <==> !last.request.body.InitializedNote? && !last.outcome.Reply?)
  {
    var last := calls[|calls| - 1];
    assert last.request.body == Bodies(calls)[|calls| - 1];
  }

  /** Theorem: whatever the leaf answers, every header sent is the latest id captured since the last clear. */
  lemma HeaderIsLatest(before: Option<string>, body: Body, calls: seq<Exchange>, r: Answer, i: nat)
    requires RequestRun(StreamableHttp, before, body, calls, r) && i < |calls|
    ensures var request := calls[i].request;
            if request.body.Initialize? then request.session == None
            else if Quiet(calls, 0, i) then request.session == before
            else exists j: nat :: j < i && LastSetAt(calls, j, i, request.session)
  {
    HeaderAt(StreamableHttp, before, calls, i);
    if !calls[i].request.body.Initialize? {
      var front := calls[..i];
      var session := SessionAfter(StreamableHttp, before, front);
      SessionOrigin(before, front, session);
      if !Quiet(front, 0, i) {
        var j: nat :| j < i && LastSetAt(front, j, i, session);
        assert LastSetAt(calls, j, i, session);
      } else {
        assert Quiet(calls, 0, i);
      }
    }
  }

  // ---------- A leaf that keeps the session rules ----------

  /** A leaf with or without sessions, its live sessions and the bodies it has executed. */
  datatype Leaf = Leaf(sessionful: bool, live: set<string>, executed: seq<Body>)

  predicate Admits(l: Leaf, request: Request) {
    !l.sessionful || (request.session.Some? && request.session.value in l.live)
  }

  /** A conforming answer: initialize succeeds and issues an id, a missing header is 400, an unknown
      id is 404, and everything else is executed. Only initialize assigns an id. */
  predicate Conforms(l: Leaf, e: Exchange) {
    && e.outcome.Reply?
    && var o := e.outcome;
    if e.request.body.Initialize? then
      200 <= o.status <= 299 && o.value.result.Some? && (o.issued.Some? <==> l.sessionful)
    else if Admits(l, e.request) then
      200 <= o.status <= 299 && (o.issued.Some? ==> l.sessionful && o.issued == e.request.session)
    else o.issued.None? && o.status == if e.request.session.None? then 400 else 404
  }

  /** A rejected request leaves no trace. */
  function LeafAfter(l: Leaf, e: Exchange): Leaf {
    if e.request.body.Initialize? then
      if Issued(e.outcome).Some? then l.(live := l.live + {Issued(e.outcome).value}) else l
    else if Admits(l, e.request) then l.(executed := l.executed + [e.request.body])
    else l
  }

  function Losing(l: Leaf, lost: set<string>): Leaf {
    l.(live := l.live - lost)
  }

  /** The leaf answers all exchanges by the rules. Before exchange `i` it may lose the sessions `losses[i]`. */
  predicate LeafRun(l: Leaf, losses: seq<set<string>>, calls: seq<Exchange>)
    decreases |calls|
  {
    && |losses| == |calls|
    && (calls != [] ==>
         var now := Losing(l, losses[0]);
         Conforms(now, calls[0]) && LeafRun(LeafAfter(now, calls[0]), losses[1..], calls[1..]))
  }

  function LeafAfterRun(l: Leaf, losses: seq<set<string>>, calls: seq<Exchange>): Leaf
    requires |losses| == |calls|
    decreases |calls|
  {
    if calls == [] then l else LeafAfterRun(LeafAfter(Losing(l, losses[0]), calls[0]), losses[1..], calls[1..])
  }

  function TimesExecuted(l: Leaf, body: Body): nat {
    multiset(l.executed)[body]
  }

  /** The session issued by the renewal is gone again before the body is sent. */
  predicate LostAgain(losses: seq<set<string>>, calls: seq<Exchange>)
    requires |losses| == |calls|
  {
    |calls| == 4 && Issued(calls[1].outcome).Some? && Issued(calls[1].outcome).value in losses[2] + losses[3]
  }

  lemma LeafStep(l: Leaf, losses: seq<set<string>>, calls: seq<Exchange>)
    requires LeafRun(l, losses, calls) && calls != []
    ensures var now := Losing(l, losses[0]);
            && Conforms(now, calls[0])
            && LeafRun(LeafAfter(now, calls[0]), losses[1..], calls[1..])
            && LeafAfterRun(l, losses, calls) == LeafAfterRun(LeafAfter(now, calls[0]), losses[1..], calls[1..])
  {
  }

  /** The first exchange is executed, or the client notices that it was not. */
  lemma FirstExchange(l: Leaf, losses: seq<set<string>>, before: Option<string>, calls: seq<Exchange>)
    requires LeafRun(l, losses, calls) && calls != [] && calls[0].request.body.Call?
    requires HeadersCurrent(StreamableHttp, before, calls)
    ensures Renews(StreamableHttp, before, calls) <==> !Admits(Losing(l, losses[0]), calls[0].request)
    ensures Renews(StreamableHttp, before, calls) <==> !Answered(calls[0].outcome)
    ensures Renews(StreamableHttp, before, calls) ==> l.sessionful
  {
    HeaderAt(StreamableHttp, before, calls, 0);
    assert calls[..1][..0] == [] && calls[..0] == [];
  }

  /** After the renewal the body carries the new id. */
  lemma ResendCarriesNewId(l: Leaf, losses: seq<set<string>>, before: Option<string>, body: Body, calls: seq<Exchange>)
    requires LeafRun(l, losses, calls) && l.sessionful && HeadersCurrent(StreamableHttp, before, calls)
    requires body.Call? && Bodies(calls) == [body, Initialize, InitializedNote, body]
    ensures Issued(calls[1].outcome).Some?
    ensures calls[2].request.session == calls[3].request.session == Issued(calls[1].outcome)
  {
    LeafStep(l, losses, calls);
    var l1 := LeafAfter(Losing(l, losses[0]), calls[0]);
    LeafStep(l1, losses[1..], calls[1..]);
    var l2 := LeafAfter(Losing(l1, losses[1]), calls[1]);
    LeafStep(l2, losses[2..], calls[2..]);
    HeaderAt(StreamableHttp, before, calls, 2);
    HeaderAt(StreamableHttp, before, calls, 3);
    assert calls[..2][..1] == calls[..1] && calls[..3][..2] == calls[..2];
  }

  /** A request that is answered at once. */
  lemma DirectRequest(l: Leaf, losses: seq<set<string>>, before: Option<string>, body: Body,
                      calls: seq<Exchange>, r: Answer)
    requires body.Call? && RequestRun(StreamableHttp, before, body, calls, r) && LeafRun(l, losses, calls)
    requires !Renews(StreamableHttp, before, calls)
    ensures r.Ok? && |calls| == 1
    ensures TimesExecuted(LeafAfterRun(l, losses, calls), body) == TimesExecuted(l, body) + 1
  {
    FirstExchange(l, losses, before, calls);
    LeafStep(l, losses, calls);
    assert calls[0].request.body == Bodies(calls)[0];
  }

  /** A request that finds its session gone. */
  lemma RenewedRequest(l: Leaf, losses: seq<set<string>>, before: Option<string>, body: Body,
                       calls: seq<Exchange>, r: Answer)
    requires body.Call? && RequestRun(StreamableHttp, before, body, calls, r) && LeafRun(l, losses, calls)
    requires Renews(StreamableHttp, before, calls)
    ensures |calls| == 4 && (r.Ok? <==> !LostAgain(losses, calls))
    ensures TimesExecuted(LeafAfterRun(l, losses, calls), body) == TimesExecuted(l, body) + (if r.Ok? then 1 else 0)
  {
    FirstExchange(l, losses, before, calls);
    LeafStep(l, losses, calls);
    var l1 := LeafAfter(Losing(l, losses[0]), calls[0]);
    LeafStep(l1, losses[1..], calls[1..]);
    var l2 := LeafAfter(Losing(l1, losses[1]), calls[1]);
    assert calls[1].request.body == Bodies(calls)[1] == Initialize;
    assert Bodies(calls) == [body, Initialize, InitializedNote, body];
    ResendCarriesNewId(l, losses, before, body, calls);
    LeafStep(l2, losses[2..], calls[2..]);
    var l3 := LeafAfter(Losing(l2, losses[2]), calls[2]);
    LeafStep(l3, losses[3..], calls[3..]);
    assert calls[2].request.body == Bodies(calls)[2] && calls[3].request.body == Bodies(calls)[3];
    var l4 := LeafAfter(Losing(l3, losses[3]), calls[3]);
    assert LeafAfterRun(l, losses, calls) == l4;
  }

  /** Theorem: against a conforming leaf, which may lose sessions at any time, the body is executed exactly
      once if the request succeeds and not at all if it fails; and it fails only if the session issued for
      this very request is lost again before the body is sent. */
  lemma RequestSurvivesSessionLoss(l: Leaf, losses: seq<set<string>>, before: Option<string>, body: Body,
                                   calls: seq<Exchange>, r: Answer)
    requires body.Call? && RequestRun(StreamableHttp, before, body, calls, r) && LeafRun(l, losses, calls)
    ensures TimesExecuted(LeafAfterRun(l, losses, calls), body) == TimesExecuted(l, body) + (if r.Ok? then 1 else 0)
    ensures r.Ok? <==> !LostAgain(losses, calls)
    ensures r.Ok? ==> r.value == calls[|calls| - 1].outcome.value
  {
    AtMostOneRenewal(StreamableHttp, before, body, calls, r);
    if Renews(StreamableHttp, before, calls) {
      RenewedRequest(l, losses, before, body, calls, r);
    } else {
      DirectRequest(l, losses, before, body, calls, r);
    }
  }

  /** The plain transport sends no header, so a conforming leaf answers it exactly when it has no sessions. */
  lemma PlainTransportNeedsNoSessions(l: Leaf, losses: seq<set<string>>, before: Option<string>, body: Body,
                                      calls: seq<Exchange>, r: Answer)
    requires body.Call? && RequestRun(HttpPost, before, body, calls, r) && LeafRun(l, losses, calls)
    ensures |calls| == 1 && (r.Ok? <==> !l.sessionful)
    ensures TimesExecuted(LeafAfterRun(l, losses, calls), body) == TimesExecuted(l, body) + (if r.Ok? then 1 else 0)
  {
    assert calls[0].request.body == Bodies(calls)[0];
    HeaderAt(HttpPost, before, calls, 0);
    LeafStep(l, losses, calls);
  }

  // ---------- A leaf that answers 400 to a stale id ----------

  datatype Done = Done(body: Body, calls: seq<Exchange>, r: Answer)

  /** Requests one after another. */
  predicate RequestRuns(before: Option<string>, runs: seq<Done>)
    decreases |runs|
  {
    runs != [] ==>
      && runs[0].body.Call?
      && RequestRun(StreamableHttp, before, runs[0].body, runs[0].calls, runs[0].r)
      && RequestRuns(SessionAfter(StreamableHttp, before, runs[0].calls), runs[1..])
  }

  /** The leaf answers 400 whenever this id is sent. */
  predicate Answers400(id: string, calls: seq<Exchange>) {
    forall i :: 0 <= i < |calls| && calls[i].request.session == Some(id) ==>
      var o := calls[i].outcome; o.Reply? && o.status == 400 && o.issued.None?
  }

  /** A stale id that is answered with 400 is never renewed: every request fails after a single exchange. */
  lemma {:induction false} StaleIdIsNeverRenewed(id: string, runs: seq<Done>)
    requires RequestRuns(Some(id), runs)
    requires forall i :: 0 <= i < |runs| ==> Answers400(id, runs[i].calls)
    ensures forall i :: 0 <= i < |runs| ==> |runs[i].calls| == 1 && runs[i].r == Err(LeafError)
    decreases |runs|
  {
    if runs != [] {
      var calls := runs[0].calls;
      assert calls[0].request.body == Bodies(calls)[0] || |calls| >= 2;
      HeaderAt(StreamableHttp, Some(id), calls, 0);
      FirstBody(Some(id), runs[0]);
      assert calls[0].outcome.status == 400;
      assert !Renews(StreamableHttp, Some(id), calls);
      assert calls == calls[..1] && Quiet(calls, 0, 1);
      StaleIdIsNeverRenewed(id, runs[1..]);
      assert forall i :: 1 <= i < |runs| ==> runs[i] == runs[1..][i - 1];
    }
  }

  lemma FirstBody(before: Option<string>, run: Done)
    requires RequestRun(StreamableHttp, before, run.body, run.calls, run.r)
    ensures run.calls[0].request.body == run.body
  {
    assert run.calls[0].request.body == Bodies(run.calls)[0];
  }
}
