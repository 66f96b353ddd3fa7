/** One connection from its first byte to its close: read, parse, answer, decide, send. */
module ClientHandler {
  import opened Bytes
  import opened Lines
  import opened Framing
  import opened Parser
  import opened Printing
  import RoundTrip
  import opened RequestObject
  import opened Stream
  import opened Sockets
  import opened Reader
  import opened Responses
  import opened ResponseStream
  import opened Persistence
  import opened ResponseObject
  import opened Serializer
  import opened Transfer
  import opened Dispatch

  const MAX_REQUESTS_PER_CONNECTION: nat := 100

  // -------------------------------------------------------------------- turns

  /** A read result that is answered, the answer as the client gets it, and what the handlers
      did for it. */
  datatype Served = Served(read: ReadResult, ex: Exchange, work: Work)

  /** The response and whether its body is omitted are as this read result calls for. */
  ghost predicate Answers(read: ReadResult, resp: Response, omitBody: bool, work: Work) {
    match read
    case Message(d) =>
      (match ParseRequest(d)
       case Err(e) => resp.status == StatusForParse(e) && !omitBody && Carries(resp, work.page)
       case Ok(r) => Dispatched(r, resp, work) && omitBody == r.line.meth.HEAD?)
    case Timeout => resp.status == 408 && !omitBody && Carries(resp, work.page)
    case Rejected(e) => resp.status == StatusForRead(e) && !omitBody && Carries(resp, work.page)
    case _ => false
  }

  /** May the connection go on after the answer to the `count`-th read? */
  ghost predicate Persists(read: ReadResult, status: nat, count: nat) {
    && read.Message? && ParseRequest(read.data).Ok?
    && WantsKeepAlive(ParseRequest(read.data).value)
    && !RequiresClose(status)
    && count < MAX_REQUESTS_PER_CONNECTION
  }

  /** How a persisting answer says so: HTTP/1.0 clients are told, for HTTP/1.1 it goes without saying. */
  ghost predicate ShowsPolicy(read: ReadResult, resp: Response, count: nat) {
    Persists(read, resp.status, count) ==>
      if ParseRequest(read.data).value.line.version == HTTP_1_0
      then FirstNamed(resp.headers, CONNECTION) == Some(KEEP_ALIVE)
      else NoneNamed(resp.headers, CONNECTION)
  }

  /** A finished turn: a complete answer, which says close exactly when the connection will close. */
  ghost predicate GoodTurn(t: Served, count: nat) {
    && Complete(t.ex)
    && Answers(t.read, t.ex.resp, t.ex.omitBody, t.work)
    && (SaysClose(AllFields(t.ex.resp)) <==> !Persists(t.read, t.ex.resp.status, count))
    && ShowsPolicy(t.read, t.ex.resp, count)
  }

  lemma NamesAreGood(hs: seq<Header>)
    requires forall i :: 0 <= i < |hs| ==> WellFormedField(hs[i])
    ensures SeenNames(hs) == hs
  {}

  /** `http_request_wants_keep_alive`, on the parsed object. */
  method KeepAliveWish(request: HttpRequest, ghost r: Request) returns (keep: bool)
    requires request.Holds(r) && RoundTrip.WellFormed(r)
    ensures keep == WantsKeepAlive(r)
  {
    hide HasToken, FirstNamed, WellFormedField;
    NamesAreGood(r.headers);
    LiteralsAreCStrings();
    var connection := request.GetHeader(CONNECTION);
    var hasClose, hasKeep := false, false;
    if connection.Some? {
      hasClose := HeaderValueHasToken(connection.value, CLOSE);
      hasKeep := HeaderValueHasToken(connection.value, KEEP_ALIVE);
    }
    if hasClose {
      return false;
    }
    var version := request.line.value.version;
    if version == HTTP_1_1 {
      return true;
    }
    return version == HTTP_1_0 && hasKeep;
  }

  /** Parse and dispatch one framed message. */
  method AnswerMessage(handlers: Handlers, d: bytes) returns (o: Outcome, omitBody: bool, keep: bool, version: bytes)
    modifies handlers
    ensures handlers.failures >= old(handlers.failures)
    ensures o.Built? ==> WellBuilt(o.resp)
    ensures o.Built? ==> Answers(Message(d), o.resp, omitBody, handlers.Since(old(handlers.failures)))
    ensures o.Built? ==> (keep <==> ParseRequest(d).Ok? && WantsKeepAlive(ParseRequest(d).value) &&
                                    !RequiresClose(o.resp.status))
    ensures o.BuildFailed? ==> handlers.failures > old(handlers.failures) + 1
    ensures ParseRequest(d).Ok? ==> version == ParseRequest(d).value.line.version
  {
    hide ParseRequest, WellBuilt, WantsKeepAlive, RoundTrip.WellFormed, Dispatched;
    var request := new HttpRequest();
    var e := request.Parse(d);
    if e.Some? {
      o := BuildError(handlers, StatusForParse(e.value));
      return o, false, false, [];
    }
    ghost var r := ParseRequest(d).value;
    RoundTrip.ParsedIsWellFormed(d);
    omitBody := request.line.value.meth.HEAD?;
    version := request.line.value.version;
    keep := KeepAliveWish(request, r);
    o := Route(handlers, Request(request.line.value, request.headers, request.body));
    if o.Built? && RequiresClose(o.resp.status) {
      keep := false;
    }
  }

  /** The response of one loop turn, before the connection policy is applied. */
  method Answer(handlers: Handlers, read: ReadResult) returns (o: Outcome, omitBody: bool, keep: bool, version: bytes)
    requires read.Message? || read.Timeout? || read.Rejected?
    modifies handlers
    ensures handlers.failures >= old(handlers.failures)
    ensures o.Built? ==> WellBuilt(o.resp)
    ensures o.Built? ==> Answers(read, o.resp, omitBody, handlers.Since(old(handlers.failures)))
    ensures o.Built? ==> (keep <==> read.Message? && ParseRequest(read.data).Ok? &&
                                    WantsKeepAlive(ParseRequest(read.data).value) && !RequiresClose(o.resp.status))
    ensures o.BuildFailed? ==> handlers.failures > old(handlers.failures) + 1
    ensures read.Message? && ParseRequest(read.data).Ok? ==> version == ParseRequest(read.data).value.line.version
  {
    hide ParseRequest, WellBuilt, WantsKeepAlive, RequiresClose, Dispatched;
    match read
    case Message(d) =>
      o, omitBody, keep, version := AnswerMessage(handlers, d);
    case Timeout =>
      o := BuildError(handlers, 408);
      omitBody, keep, version := false, false, [];
    case Rejected(why) =>
      o := BuildError(handlers, StatusForRead(why));
      omitBody, keep, version := false, false, [];
  }

  lemma OtherNames()
    ensures !EqualCI(CONTENT_TYPE, CONNECTION) && !EqualCI(ALLOW, CONNECTION)
  {}

  lemma FieldsKept(a: seq<Header>, b: seq<Header>)
    requires OthersKept(b, a, CONNECTION)
    ensures forall h :: h in a && !EqualCI(h.name, CONNECTION) ==> h in b
  {
    hide EqualCI;
    forall h | h in a && !EqualCI(h.name, CONNECTION) ensures h in b {
      assert h in multiset(a);
      assert h in multiset(b);
    }
  }

  /** What the connection policy does to a response does not change what it answers. */
  lemma AnswersStill(read: ReadResult, a: Response, b: Response, omitBody: bool, work: Work)
    requires Answers(read, a, omitBody, work)
    requires b.status == a.status && b.reason == a.reason && b.body == a.body
    requires OthersKept(b.headers, a.headers, CONNECTION)
    ensures Answers(read, b, omitBody, work)
  {
    hide ParseRequest, StatusFits, Echoes, EchoType, BodyBytes, ApiTarget, AllowFor, BeforeQuery, OthersKept, EqualCI;
    OtherNames();
    FieldsKept(a.headers, b.headers);
  }

  datatype TurnResult =
    | Finished(ex: Exchange, keep: bool, work: Work)
    | Cut(ex: Exchange, sent: nat, work: Work)
    | Unanswered

  /** The policy and the sending of a built response. */
  method Deliver(sock: Socket, read: ReadResult, resp: Response, omitBody: bool, keep: bool, version: bytes,
                 ghost work: Work)
    returns (ex: Exchange, ok: bool, sent: nat)
    requires WellBuilt(resp) && Answers(read, resp, omitBody, work)
    modifies sock`outgoing, sock`faults, sock`sendFaults, sock`budget
    ensures Later(sock) && (!ok ==> sock.sendFaults > old(sock.sendFaults))
    ensures WellBuilt(ex.resp) && ex.resp.status == resp.status && ex.omitBody == omitBody
    ensures Answers(read, ex.resp, omitBody, work)
    ensures SaysClose(AllFields(ex.resp)) <==> !keep
    ensures keep && version == HTTP_1_0 ==> FirstNamed(ex.resp.headers, CONNECTION) == Some(KEEP_ALIVE)
    ensures keep && version != HTTP_1_0 ==> NoneNamed(ex.resp.headers, CONNECTION)
    ensures sent <= |ExchangeWire(ex)| && sock.outgoing == old(sock.outgoing) + ExchangeWire(ex)[..sent]
    ensures if ok then Complete(ex) && sent == |ExchangeWire(ex)| else sent < DeclaredSize(ex.resp, omitBody)
  {
    hide WellBuilt, SaysClose, AllFields, Answers, Wire, Whole, OthersKept, FirstNamed, NoneNamed, BuffersFit;
    var response := new HttpResponse(resp);
    response.ApplyConnectionPolicy(keep, version);
    var final := Response(response.status, response.reason, response.headers, response.body, response.suppressClose);
    AnswersStill(read, resp, final, omitBody, work);
    WellBuiltSerializes(final);
    ex := Exchange(final, omitBody);
    ok, sent := SendResponse(sock, final, omitBody);
  }

  /** One turn of the loop after the read: answer, policy, send. `count` is the number of turns so
      far, this one included. A turn gives no answer only if the response could not be built in two
      attempts, and cuts its answer only if a call for sending failed. */
  method ServeOne(sock: Socket, handlers: Handlers, read: ReadResult, count: nat) returns (t: TurnResult)
    requires read.Message? || read.Timeout? || read.Rejected?
    modifies handlers, sock`outgoing, sock`faults, sock`sendFaults, sock`budget
    ensures Later(sock) && handlers.failures >= old(handlers.failures)
    ensures t.Finished? ==> GoodTurn(Served(read, t.ex, t.work), count)
    ensures t.Finished? ==> t.work == handlers.Since(old(handlers.failures))
    ensures t.Finished? ==> (t.keep <==> Persists(read, t.ex.resp.status, count))
    ensures t.Finished? ==> sock.outgoing == old(sock.outgoing) + ExchangeWire(t.ex)
    ensures t.Cut? ==> Answers(read, t.ex.resp, t.ex.omitBody, t.work)
    ensures t.Cut? ==> t.work == handlers.Since(old(handlers.failures))
    ensures t.Cut? ==> WellBuilt(t.ex.resp) && t.sent <= |ExchangeWire(t.ex)|
    ensures t.Cut? ==> t.sent < DeclaredSize(t.ex.resp, t.ex.omitBody)
    ensures t.Cut? ==> sock.outgoing == old(sock.outgoing) + ExchangeWire(t.ex)[..t.sent]
    ensures t.Cut? ==> sock.sendFaults > old(sock.sendFaults)
    ensures t.Unanswered? ==> sock.outgoing == old(sock.outgoing)
    ensures t.Unanswered? ==> handlers.failures > old(handlers.failures) + 1
  {
    hide ParseRequest, WellBuilt, WantsKeepAlive, RequiresClose, SaysClose, AllFields, Answers, ExchangeWire;
    hide Complete, FirstNamed, NoneNamed, DeclaredSize;
    var before := handlers.failures;
    var o, omitBody, keep, version := Answer(handlers, read);
    if o.BuildFailed? {
      return Unanswered;
    }
    var work := handlers.Since(before);
    if count >= MAX_REQUESTS_PER_CONNECTION {
      keep := false;
    }
    var ex, ok, sent := Deliver(sock, read, o.resp, omitBody, keep, version, work);
    if !ok {
      return Cut(ex, sent, work);
    }
    ghost var w := ExchangeWire(ex);
    assert w[..|w|] == w;
    return Finished(ex, keep, work);
  }

  // --------------------------------------------------------------- connection

  /** Why the loop ended. */
  datatype Stop =
    | ByPolicy
    | ClientGone
    | IdleTimeout
    | ReadBroke
    | NoAnswer(read: ReadResult)
    | SendCut(read: ReadResult, ex: Exchange, sent: nat, work: Work)

  /** What has gone wrong, or come to its end, up to some moment: failed builds, failed calls for
      reading and of the clock, failed calls for sending, and ends of the stream. */
  datatype Troubles = Troubles(builds: nat, reading: nat, sending: nat, ends: nat)

  function Count(handlers: Handlers, sock: Socket): Troubles
    reads handlers, sock
  {
    Troubles(handlers.failures, sock.readFaults + sock.clockFaults, sock.sendFaults, sock.ends)
  }

  ghost predicate Recorded(log: seq<Served>, before: Troubles, after: Troubles) {
    forall i :: 0 <= i < |log| && log[i].work.failed ==> after.builds > before.builds
  }

  /** Every exit of the loop that is not a matter of policy or time has a cause between the two counts,
      and so has every handler failure on record. */
  ghost predicate Explained(log: seq<Served>, stop: Stop, before: Troubles, after: Troubles) {
    && (stop.NoAnswer? ==> after.builds > before.builds + 1)
    && (stop.ReadBroke? ==> after.reading > before.reading)
    && (stop.SendCut? ==> after.sending > before.sending && (stop.work.failed ==> after.builds > before.builds))
    && (stop.ClientGone? ==> after.ends > before.ends)
    && Recorded(log, before, after)
  }

  function Exchanges(log: seq<Served>): (r: seq<Exchange>)
    ensures |r| == |log| && forall i :: 0 <= i < |log| ==> r[i] == log[i].ex
  {
    seq(|log|, i requires 0 <= i < |log| => log[i].ex)
  }

  /** The `i`-th read is the `i`-th thing the stream frames into. */
  ghost predicate ReadMatches(read: ReadResult, c: Cutting, i: nat) {
    match read
    case Message(d) => i < |c.messages| && c.messages[i] == d
    case Rejected(e) => i == |c.messages| && c.end == Refused(e)
    case Timeout => true
    case _ => false
  }

  ghost predicate InOrder(log: seq<Served>, c: Cutting) {
    forall i :: 0 <= i < |log| ==> ReadMatches(log[i].read, c, i)
  }

  /** What is left of the framing of a stream once `i` messages have been taken. */
  ghost predicate Behind(c: Cutting, i: nat, rest: Cutting) {
    c.end == rest.end && i <= |c.messages| && c.messages[i..] == rest.messages
  }

  lemma TakeNext(c: Cutting, i: nat, p: bytes, d: bytes, p': bytes)
    requires Behind(c, i, FrameStream(p)) && Extract(p) == Extraction.Ready(|d|) && d + p' == p
    ensures ReadMatches(Message(d), c, i) && Behind(c, i + 1, FrameStream(p'))
  {
    hide Extract;
    ReadyBounds(p);
    assert p[..|d|] == d && p[|d|..] == p';
    assert FrameStream(p) == Prepend(d, FrameStream(p'));
    assert c.messages[i..][0] == d;
    assert c.messages[i + 1..] == c.messages[i..][1..];
  }

  lemma TakeRefusal(c: Cutting, i: nat, p: bytes, e: ParseError)
    requires Behind(c, i, FrameStream(p)) && Extract(p) == Fail(e)
    ensures ReadMatches(Rejected(e), c, i)
  {
    hide Extract;
    assert c.messages[i..] == [];
  }

  /** A log entry that is followed by another one kept the connection open. */
  ghost predicate KeptOpen(t: Served) { t.read.Message? && !SaysClose(AllFields(t.ex.resp)) }

  ghost predicate GoodLog(log: seq<Served>) {
    forall i :: 0 <= i < |log| ==> GoodTurn(log[i], i + 1)
  }

  ghost predicate AllKept(log: seq<Served>) {
    forall i :: 0 <= i < |log| ==> KeptOpen(log[i])
  }

  /** The bytes of a response that could not be finished. */
  function Tail(stop: Stop): bytes {
    match stop
    case SendCut(_, ex, sent, _) => if sent <= |ExchangeWire(ex)| then ExchangeWire(ex)[..sent] else ExchangeWire(ex)
    case _ => []
  }

  ghost predicate GoodStop(log: seq<Served>, stop: Stop) {
    match stop
    case ByPolicy => log != [] && AllKept(log[..|log| - 1]) && !KeptOpen(log[|log| - 1])
    case SendCut(read, ex, sent, work) =>
      AllKept(log) && Answers(read, ex.resp, ex.omitBody, work) &&
      WellBuilt(ex.resp) && sent <= |ExchangeWire(ex)| && sent < DeclaredSize(ex.resp, ex.omitBody)
    case _ => AllKept(log)
  }

  /** The bytes of the stream that were answered as complete messages. */
  function FramedBytes(log: seq<Served>): bytes {
    if log == [] then []
    else FramedBytes(log[..|log| - 1]) + (if log[|log| - 1].read.Message? then log[|log| - 1].read.data else [])
  }

  lemma FramedSnoc(log: seq<Served>, t: Served)
    ensures FramedBytes(log + [t]) == FramedBytes(log) + (if t.read.Message? then t.read.data else [])
  {
    assert (log + [t])[..|log|] == log;
  }

  /** A timeout is silent exactly when nothing of the next request had arrived; otherwise it is the
      last thing answered, with a 408 that may be cut, and some bytes were left unanswered. */
  ghost predicate TimeoutRule(log: seq<Served>, stop: Stop, stream: bytes, unread: bytes) {
    && (stop.IdleTimeout? ==> FramedBytes(log) + unread == stream)
    && (log != [] && log[|log| - 1].read.Timeout? ==> |FramedBytes(log)| + |unread| < |stream|)
    && ((stop.SendCut? || stop.NoAnswer?) && stop.read.Timeout? ==> |FramedBytes(log)| + |unread| < |stream|)
  }

  lemma LogSnoc(log: seq<Served>, t: Served, c: Cutting)
    requires GoodLog(log) && GoodTurn(t, |log| + 1) && InOrder(log, c) && ReadMatches(t.read, c, |log|)
    ensures GoodLog(log + [t]) && InOrder(log + [t], c)
    ensures Exchanges(log + [t]) == Exchanges(log) + [t.ex]
    ensures AllKept(log) && KeptOpen(t) ==> AllKept(log + [t])
    ensures (log + [t])[..|log|] == log
  {
    hide GoodTurn, ReadMatches, KeptOpen;
  }

  lemma KeepIsMessage(t: Served, count: nat)
    requires GoodTurn(t, count)
    ensures KeptOpen(t) <==> Persists(t.read, t.ex.resp.status, count)
    ensures Persists(t.read, t.ex.resp.status, count) ==> t.read.Message? && count < MAX_REQUESTS_PER_CONNECTION
  {
    hide Answers, Complete, SaysClose, ParseRequest, WantsKeepAlive, ShowsPolicy;
  }

  /** What the loop keeps: every turn so far was good and kept the connection open, the bytes pending
      are those behind the messages answered, and the output is the answers one after another. */
  ghost predicate Serving(log: seq<Served>, pending: bytes, out: bytes, stream: bytes, sent0: bytes) {
    && |log| < MAX_REQUESTS_PER_CONNECTION
    && GoodLog(log) && AllKept(log) && InOrder(log, FrameStream(stream))
    && Behind(FrameStream(stream), |log|, FrameStream(pending))
    && FramedBytes(log) + pending == stream
    && out == sent0 + WireAll(Exchanges(log))
  }

  /** What holds when the loop is left. */
  ghost predicate Ended(log: seq<Served>, stop: Stop, unread: bytes, out: bytes, stream: bytes, sent0: bytes) {
    && GoodLog(log) && GoodStop(log, stop) && |log| <= MAX_REQUESTS_PER_CONNECTION
    && InOrder(log, FrameStream(stream)) && FramedBytes(log) <= stream
    && (stop.SendCut? || stop.NoAnswer? ==> ReadMatches(stop.read, FrameStream(stream), |log|))
    && (stop.ClientGone? ==> FrameStream(stream).end == Closed && |log| == |FrameStream(stream).messages|)
    && out == sent0 + WireAll(Exchanges(log)) + Tail(stop)
    && TimeoutRule(log, stop, stream, unread)
  }

  /** A read that must be answered, and where it leaves the reader. */
  ghost predicate ToAnswer(log: seq<Served>, read: ReadResult, pending: bytes, unread: bytes, stream: bytes) {
    && (read.Message? || read.Timeout? || read.Rejected?)
    && ReadMatches(read, FrameStream(stream), |log|)
    && (read.Message? ==>
          && Behind(FrameStream(stream), |log| + 1, FrameStream(pending))
          && FramedBytes(log) + read.data + pending == stream)
    && (read.Timeout? ==> |FramedBytes(log)| + |unread| < |stream|)
  }

  lemma Start(stream: bytes, sent0: bytes)
    ensures Serving([], stream, sent0, stream, sent0)
  {
    hide FrameStream;
    assert FrameStream(stream).messages[0..] == FrameStream(stream).messages;
    assert sent0 + WireAll(Exchanges([])) == sent0;
    assert FramedBytes([]) + stream == stream;
  }

  lemma StopsQuietly(log: seq<Served>, stop: Stop, pending: bytes, behind: bytes, unread: bytes,
                     out: bytes, stream: bytes, sent0: bytes)
    requires Serving(log, pending, out, stream, sent0) && !stop.ByPolicy? && !stop.SendCut?
    requires stop.NoAnswer? ==> ToAnswer(log, stop.read, behind, unread, stream)
    requires stop.IdleTimeout? ==> pending == unread
    requires stop.ClientGone? ==> FrameStream(pending) == Cutting([], Closed)
    ensures Ended(log, stop, unread, out, stream, sent0)
  {
    hide FrameStream, WireAll, FramedBytes, GoodTurn, SaysClose, AllFields, ReadMatches, ExchangeWire;
    assert log != [] ==> KeptOpen(log[|log| - 1]);
    assert out + [] == out;
  }

  lemma StopsCut(log: seq<Served>, read: ReadResult, ex: Exchange, sent: nat, work: Work, pending: bytes,
                 behind: bytes, unread: bytes, out: bytes, stream: bytes, sent0: bytes)
    requires Serving(log, pending, out, stream, sent0)
    requires ToAnswer(log, read, behind, unread, stream) && Answers(read, ex.resp, ex.omitBody, work)
    requires WellBuilt(ex.resp) && sent <= |ExchangeWire(ex)| && sent < DeclaredSize(ex.resp, ex.omitBody)
    ensures Ended(log, SendCut(read, ex, sent, work), unread, out + ExchangeWire(ex)[..sent], stream, sent0)
  {
    hide FrameStream, WireAll, FramedBytes, GoodTurn, SaysClose, AllFields, ReadMatches, ExchangeWire;
    hide WellBuilt, DeclaredSize, Answers;
    assert log != [] ==> KeptOpen(log[|log| - 1]);
  }

  lemma TurnedWire(a: bytes, b: bytes, c: bytes)
    ensures a + b + c == a + (b + c) && a + (b + c) + [] == a + b + c
  {}

  /** A finished turn either ends the loop or restores its invariant. */
  lemma Turned(log: seq<Served>, t: Served, before: bytes, out: bytes, pending: bytes, unread: bytes,
               stream: bytes, sent0: bytes)
    requires Serving(log, before, out, stream, sent0)
    requires ToAnswer(log, t.read, pending, unread, stream) && GoodTurn(t, |log| + 1)
    ensures Persists(t.read, t.ex.resp.status, |log| + 1) ==>
              |log| + 1 < MAX_REQUESTS_PER_CONNECTION &&
              Serving(log + [t], pending, out + ExchangeWire(t.ex), stream, sent0)
    ensures !Persists(t.read, t.ex.resp.status, |log| + 1) ==>
              Ended(log + [t], ByPolicy, unread, out + ExchangeWire(t.ex), stream, sent0)
  {
    hide FrameStream, WireAll, FramedBytes, GoodTurn, KeptOpen, ReadMatches, ExchangeWire, Persists;
    LogSnoc(log, t, FrameStream(stream));
    FramedSnoc(log, t);
    WireAllSnoc(Exchanges(log), t.ex);
    KeepIsMessage(t, |log| + 1);
    TurnedWire(sent0, WireAll(Exchanges(log)), ExchangeWire(t.ex));
  }

  lemma NothingLeft(p: bytes)
    requires Extract(p) == NeedMore
    ensures FrameStream(p) == Cutting([], Closed)
  {
    hide Extract;
  }

  lemma TimeoutMatches(c: Cutting, i: nat)
    ensures ReadMatches(Timeout, c, i)
  {}

  /** When an undisturbed wait that began at `since` gives up: exactly at the keep-alive timeout if nothing
      of a request came, else with the request timeout of a request begun within the keep-alive timeout. */
  predicate InTime(idle: bool, since: nat, now: nat, ka: int, rq: int) {
    if idle then now == since + AtLeastOne(ka) * NANOS_PER_SEC
    else
      && since + AtLeastOne(rq) * NANOS_PER_SEC < now + NANOS_PER_MS
      && now <= since + (AtLeastOne(ka) + AtLeastOne(rq)) * NANOS_PER_SEC
  }

  lemma TimeoutInTime(length: nat, due: nat, buffered: nat, since: nat, now: nat, ka: int, rq: int)
    requires GivenUp(length, due, buffered, since, now, AtLeastOne(ka), AtLeastOne(rq))
    requires NotEarly(length, due, since, now, AtLeastOne(ka))
    ensures InTime(length == 0, since, now, ka, rq)
  {}

  /** The read of one turn, and the exits that send nothing. */
  method ReadTurn(reader: HttpReader, sock: Socket, ka: int, rq: int, log: seq<Served>,
                  ghost stream: bytes, ghost sent0: bytes)
    returns (read: ReadResult, stop: Option<Stop>)
    requires reader.Valid() && Serving(log, reader.Pending(sock), sock.outgoing, stream, sent0)
    modifies reader, reader.data, sock`incoming, sock`now, sock`faults, sock`clockFaults, sock`stalls,
             sock`expiries, sock`readFaults, sock`ends, sock`budget
    ensures reader.Valid() && (reader.data == old(reader.data) || fresh(reader.data))
    ensures Later(sock)
    ensures stop.Some? ==> Ended(log, stop.value, sock.incoming, sock.outgoing, stream, sent0)
    ensures stop.Some? ==> stop.value.ReadBroke? || stop.value.ClientGone? || stop.value.IdleTimeout?
    ensures stop == Some(ReadBroke) ==>
              sock.readFaults > old(sock.readFaults) || sock.clockFaults > old(sock.clockFaults)
    ensures stop == Some(ClientGone) ==> sock.ends > old(sock.ends)
    ensures stop.None? ==> ToAnswer(log, read, reader.Pending(sock), sock.incoming, stream)
    ensures read.Timeout? && Undisturbed(sock, old(sock.faults), old(sock.stalls)) && rq <= 1000 ==>
              InTime(stop.Some?, old(sock.now), sock.now, ka, rq)
    ensures stop == Some(IdleTimeout) ==> read.Timeout?
    ensures read.Timeout? ==> RanOut(old(sock.expiries + sock.stalls), sock.expiries + sock.stalls,
                                     old(sock.now), sock.now, AtLeastOne(rq))
  {
    hide GoodLog, AllKept, InOrder, Extract, FrameStream, WireAll, FramedBytes, ReadMatches, Exchanges, Ended;
    hide GivenUp, NotEarly, InTime, Patience, RanOut;
    var before := reader.length;
    ghost var p, c, framed := reader.Pending(sock), FrameStream(stream), FramedBytes(log);
    ghost var since, lost, due := sock.now, [], 0;
    read, lost, due := reader.NextRequest(sock, ka, rq);
    ghost var p' := reader.Pending(sock);
    stop := None;
    match read {
      case ClientClosed =>
        stop := Some(ClientGone);
        NothingLeft(p);
      case IoError => stop := Some(ReadBroke);
      case Timeout =>
        if before == 0 && reader.length == 0 {
          stop := Some(IdleTimeout);
          assert p' == sock.incoming;
        } else {
          TimeoutMatches(c, |log|);
          assert |framed| + |p'| == |stream|;
        }
        if Undisturbed(sock, old(sock.faults), old(sock.stalls)) && rq <= 1000 {
          TimeoutInTime(reader.length, due, before, since, sock.now, ka, rq);
        }
      case Message(d) =>
        TakeNext(c, |log|, p, d, p');
        assert framed + d + p' == framed + (d + p');
      case Rejected(e) => TakeRefusal(c, |log|, p, e);
    }
    if stop.Some? {
      StopsQuietly(log, stop.value, p, p', sock.incoming, sock.outgoing, stream, sent0);
    }
  }

  lemma IsAnswerable(log: seq<Served>, read: ReadResult, pending: bytes, unread: bytes, stream: bytes)
    requires ToAnswer(log, read, pending, unread, stream)
    ensures read.Message? || read.Timeout? || read.Rejected?
  {}

  lemma StillRecorded(log: seq<Served>, before: Troubles, middle: Troubles, after: Troubles)
    requires Recorded(log, before, middle) && middle.builds <= after.builds
    ensures Recorded(log, before, after)
  {}

  lemma RecordedSnoc(log: seq<Served>, t: Served, before: Troubles, middle: Troubles, after: Troubles)
    requires Recorded(log, before, middle) && before.builds <= middle.builds <= after.builds
    requires t.work.failed ==> middle.builds < after.builds
    ensures Recorded(log + [t], before, after)
  {}

  /** The last read result of a run. */
  function LastRead(log: seq<Served>, stop: Stop): ReadResult {
    match stop
    case ByPolicy => if log == [] then IoError else log[|log| - 1].read
    case ClientGone => ClientClosed
    case IdleTimeout => Timeout
    case ReadBroke => IoError
    case NoAnswer(read) => read
    case SendCut(read, _, _, _) => read
  }

  /** The second half of an iteration: answer, send, decide. */
  method Respond(sock: Socket, handlers: Handlers, read: ReadResult, log: seq<Served>, ghost pending: bytes,
                 ghost before: bytes, ghost stream: bytes, ghost sent0: bytes, ghost start: Troubles)
    returns (log': seq<Served>, goOn: bool, stop: Stop)
    requires Serving(log, before, sock.outgoing, stream, sent0)
    requires ToAnswer(log, read, pending, sock.incoming, stream)
    requires start.builds <= handlers.failures && start.sending <= sock.sendFaults
    requires Recorded(log, start, Count(handlers, sock))
    modifies handlers, sock`outgoing, sock`faults, sock`sendFaults, sock`budget
    ensures Later(sock) && handlers.failures >= old(handlers.failures)
    ensures goOn ==> |log'| < MAX_REQUESTS_PER_CONNECTION
    ensures |log'| == |log| + (if goOn || stop.ByPolicy? then 1 else 0)
    ensures goOn ==> Serving(log', pending, sock.outgoing, stream, sent0)
    ensures goOn ==> Recorded(log', start, Count(handlers, sock))
    ensures !goOn ==> Ended(log', stop, sock.incoming, sock.outgoing, stream, sent0)
    ensures !goOn ==> Explained(log', stop, start, Count(handlers, sock))
    ensures !goOn ==> LastRead(log', stop) == read && !stop.IdleTimeout?
  {
    hide Serving, Ended, ToAnswer, GoodTurn, WellBuilt, ExchangeWire, Persists, DeclaredSize, Answers, Recorded;
    IsAnswerable(log, read, pending, sock.incoming, stream);
    ghost var out, middle := sock.outgoing, Count(handlers, sock);
    var t := ServeOne(sock, handlers, read, |log| + 1);
    ghost var after := Count(handlers, sock);
    StillRecorded(log, start, middle, after);
    match t
    case Unanswered =>
      StopsQuietly(log, NoAnswer(read), before, pending, sock.incoming, out, stream, sent0);
      return log, false, NoAnswer(read);
    case Cut(ex, sent, work) =>
      StopsCut(log, read, ex, sent, work, before, pending, sock.incoming, out, stream, sent0);
      return log, false, SendCut(read, ex, sent, work);
    case Finished(ex, keep, work) =>
      Turned(log, Served(read, ex, work), before, out, pending, sock.incoming, stream, sent0);
      RecordedSnoc(log, Served(read, ex, work), start, middle, after);
      return log + [Served(read, ex, work)], keep, ByPolicy;
  }

  /** One iteration: read, answer, send, decide. */
  method Turn(reader: HttpReader, sock: Socket, handlers: Handlers, ka: int, rq: int, log: seq<Served>,
              ghost stream: bytes, ghost sent0: bytes, ghost start: Troubles)
    returns (log': seq<Served>, goOn: bool, stop: Stop)
    requires reader.Valid() && Serving(log, reader.Pending(sock), sock.outgoing, stream, sent0)
    requires start.builds <= handlers.failures && start.reading <= sock.readFaults + sock.clockFaults
    requires start.sending <= sock.sendFaults && start.ends <= sock.ends
    requires Recorded(log, start, Count(handlers, sock))
    modifies reader, reader.data, sock, handlers
    ensures reader.Valid() && (reader.data == old(reader.data) || fresh(reader.data))
    ensures Later(sock) && handlers.failures >= old(handlers.failures)
    ensures goOn ==> |log'| < MAX_REQUESTS_PER_CONNECTION
    ensures |log'| == |log| + (if goOn || stop.ByPolicy? then 1 else 0)
    ensures goOn ==> Serving(log', reader.Pending(sock), sock.outgoing, stream, sent0)
    ensures goOn ==> Recorded(log', start, Count(handlers, sock))
    ensures !goOn ==> Ended(log', stop, sock.incoming, sock.outgoing, stream, sent0)
    ensures !goOn ==> Explained(log', stop, start, Count(handlers, sock))
    ensures !goOn && LastRead(log', stop).Timeout? ==>
              RanOut(old(sock.expiries + sock.stalls), sock.expiries + sock.stalls, old(sock.now), sock.now,
                     AtLeastOne(rq))
    ensures !goOn && LastRead(log', stop).Timeout? && rq <= 1000 &&
            Undisturbed(sock, old(sock.faults), old(sock.stalls)) ==>
              InTime(stop.IdleTimeout?, old(sock.now), sock.now, ka, rq)
  {
    hide Serving, Ended, ToAnswer, Recorded, InTime, RanOut;
    ghost var p, middle := reader.Pending(sock), Count(handlers, sock);
    var read, quit := ReadTurn(reader, sock, ka, rq, log, stream, sent0);
    StillRecorded(log, start, middle, Count(handlers, sock));
    if quit.Some? {
      return log, false, quit.value;
    }
    log', goOn, stop := Respond(sock, handlers, read, log, reader.Pending(sock), p, stream, sent0, start);
  }

  /** `client_handle`: the output of the connection is the complete answers in order, then at most one
      cut answer; the k-th answers the k-th framed request; the loop goes on after an answer exactly
      when that answer was sent whole and does not say close; at most 100 answers are sent; a peer that
      is found closed has had every framed request answered. Any other end has its cause in a failed
      call, and the timeouts come when they are due; `since` is when the last wait began. */
  method ClientHandle(sock: Socket, handlers: Handlers, keepAliveSec: int, requestSec: int)
    returns (log: seq<Served>, stop: Stop, ghost since: nat)
    modifies sock, handlers
    ensures Ended(log, stop, sock.incoming, sock.outgoing, old(sock.incoming), old(sock.outgoing))
    ensures Explained(log, stop, old(Count(handlers, sock)), Count(handlers, sock))
    ensures old(sock.now) <= since && (|log| == 0 || (|log| == 1 && stop.ByPolicy?) ==> since == old(sock.now))
    ensures LastRead(log, stop).Timeout? ==>
              RanOut(old(sock.expiries + sock.stalls), sock.expiries + sock.stalls, since, sock.now,
                     AtLeastOne(requestSec))
    ensures LastRead(log, stop).Timeout? && requestSec <= 1000 &&
            Undisturbed(sock, old(sock.faults), old(sock.stalls)) ==>
              InTime(stop.IdleTimeout?, since, sock.now, keepAliveSec, requestSec)
  {
    hide Serving, Ended, ToAnswer, GoodTurn, WellBuilt, ExchangeWire, Persists, DeclaredSize, Explained, InTime;
    var reader := new HttpReader();
    log, since := [], sock.now;
    ghost var stream, sent0, start := sock.incoming, sock.outgoing, Count(handlers, sock);
    assert reader.Pending(sock) == stream;
    Start(stream, sent0);
    while true
      invariant reader.Valid() && fresh(reader) && fresh(reader.data)
      invariant |log| <= MAX_REQUESTS_PER_CONNECTION && Later(sock) && handlers.failures >= old(handlers.failures)
      invariant log == [] ==> sock.now == old(sock.now)
      invariant Serving(log, reader.Pending(sock), sock.outgoing, stream, sent0)
      invariant Recorded(log, start, Count(handlers, sock))
      decreases MAX_REQUESTS_PER_CONNECTION - |log|
    {
      var goOn;
      since := sock.now;
      log, goOn, stop := Turn(reader, sock, handlers, keepAliveSec, requestSec, log, stream, sent0, start);
      if !goOn {
        return;
      }
    }
  }
}
