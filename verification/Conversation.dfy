/** What a client can conclude from the bytes of a connection, over every run of the server. */
module Conversation {
  import opened Bytes
  import opened Lines
  import opened Framing
  import opened Parser
  import RoundTrip
  import opened Stream
  import opened Reader
  import opened Responses
  import opened ResponseStream
  import opened Persistence
  import opened ResponseObject
  import UrlDecode
  import StaticPath
  import opened Dispatch
  import opened ClientHandler

  /** What the bytes of a reply tell the client about the connection. */
  ghost predicate ReplySaysClose(reply: Reply) {
    && AfterRequestLine(reply.head).Some?
    && Fields(AfterRequestLine(reply.head).value).Some?
    && SaysClose(Fields(AfterRequestLine(reply.head).value).value)
  }

  lemma ClientSees(e: Exchange)
    requires WellBuilt(e.resp)
    ensures ReplySaysClose(ReplyOf(e)) <==> SaysClose(AllFields(e.resp))
  {
    hide WellBuilt, SaysClose, AllFields, Fields, AfterRequestLine, Head, HeaderPart, FirstTerm, CutLine, StatusText;
    HeadFound(e.resp, []);
  }

  // ------------------------------------------------------ with the server's flags

  /** Of each answer, the cut one included, whether the server left its body out. */
  function Omitted(log: seq<Served>, stop: Stop): seq<bool> {
    Omits(Exchanges(log)) + (if stop.SendCut? then [stop.ex.omitBody] else [])
  }

  lemma AllComplete(log: seq<Served>)
    requires GoodLog(log)
    ensures forall i :: 0 <= i < |log| ==> Complete(Exchanges(log)[i])
  {
    hide WellBuilt, SaysClose, AllFields, Answers, Persists, Complete;
    assert forall i :: 0 <= i < |log| ==> GoodTurn(log[i], i + 1);
  }

  /** Response stream decodability: over every run, given which bodies the server left out,
      Content-Length framing of the output gives back exactly the answers logged, and the cut one as
      an unframed rest. */
  lemma ConnectionDecodes(log: seq<Served>, stop: Stop, unread: bytes, out: bytes, stream: bytes)
    requires Ended(log, stop, unread, out, stream, [])
    ensures DecodeAll(out, Omitted(log, stop)) == (Replies(Exchanges(log)), Tail(stop))
  {
    hide WellBuilt, DecodeAll, WireAll, Replies, ExchangeWire, DeclaredSize, FrameStream, TimeoutRule, InOrder;
    hide Omits, GoodLog, AllKept, Complete;
    var es := Exchanges(log);
    AllComplete(log);
    assert out == WireAll(es) + Tail(stop);
    if stop.SendCut? {
      StreamDecodes(es, stop.ex, stop.sent);
    } else {
      WholeStreamDecodes(es);
      assert WireAll(es) + [] == WireAll(es);
      assert Omits(es) + [] == Omits(es);
    }
  }

  // ------------------------------------------------------ with the client's flags

  /** The text starts with the method token HEAD. */
  predicate AsksHead(text: bytes) { HEAD_TOKEN + [SP] <= text }

  /** What the client wrote to get the answer to this read: the message, or, where none was framed,
      all it sent behind the messages answered before. */
  function Wrote(read: ReadResult, framed: bytes, stream: bytes): bytes {
    if read.Message? then read.data else if framed <= stream then stream[|framed|..] else stream
  }

  function AskedHead(log: seq<Served>, framed: bytes, stream: bytes): (r: seq<bool>)
    ensures |r| == |log| && forall i :: 0 <= i < |log| ==> r[i] == AsksHead(Wrote(log[i].read, framed, stream))
  {
    seq(|log|, i requires 0 <= i < |log| => AsksHead(Wrote(log[i].read, framed, stream)))
  }

  /** Of each answer, the cut one included, whether the client knows that it asked with HEAD. */
  function Asked(log: seq<Served>, stop: Stop, stream: bytes): seq<bool> {
    AskedHead(log, FramedBytes(log), stream) +
    (if stop.SendCut? then [AsksHead(Wrote(stop.read, FramedBytes(log), stream))] else [])
  }

  /** The read gave no request: a timeout, a framing error, or a message that does not parse. */
  ghost predicate Unparsed(read: ReadResult) { !(read.Message? && ParseRequest(read.data).Ok?) }

  /** The client asked with HEAD but the server, which had no parsed request, answered as to GET. */
  ghost predicate Misjudged(read: ReadResult, framed: bytes, stream: bytes) {
    Unparsed(read) && AsksHead(Wrote(read, framed, stream))
  }

  /** Such an answer that carries a body. */
  ghost predicate Unexpected(t: Served, framed: bytes, stream: bytes) {
    Misjudged(t.read, framed, stream) && BodyBytes(t.ex.resp.body) != []
  }

  /** Some answer carries a body that the client does not expect, or is cut behind the header block the
      client takes for all of it. */
  ghost predicate Misled(log: seq<Served>, stop: Stop, stream: bytes) {
    || (exists i :: 0 <= i < |log| && Unexpected(log[i], FramedBytes(log), stream))
    || (stop.SendCut? && Misjudged(stop.read, FramedBytes(log), stream) && stop.sent >= |Head(stop.ex.resp)|)
  }

  lemma TokenStarts(line: RequestLine, d: bytes)
    requires RoundTrip.LineText(line) <= d
    ensures AsksHead(d) <==> line.meth.HEAD?
  {
    var text, token := RoundTrip.LineText(line), MethodToken(line.meth);
    assert token + [SP] <= text;
    assert text[0] == token[0] == d[0];
    assert token[|token| - 1] == d[|token| - 1] && d[|token|] == SP;
    assert line.meth.HEAD? ==> HEAD_TOKEN + [SP] <= d;
    assert HEAD_TOKEN[0] != GET_TOKEN[0] && HEAD_TOKEN[0] != POST_TOKEN[0];
  }

  /** For a request that parses, the server leaves the body out exactly when the client asked with HEAD. */
  lemma TokenIsMethod(d: bytes)
    requires ParseRequest(d).Ok?
    ensures AsksHead(d) <==> ParseRequest(d).value.line.meth.HEAD?
  {
    hide ParseRequest;
    var line := ParseRequest(d).value.line;
    RoundTrip.ParsedStart(d);
    TokenStarts(line, d);
  }

  /** The two flags of an answer differ exactly when the server misjudged the request. */
  lemma FlagsDiffer(read: ReadResult, resp: Response, omitBody: bool, work: Work, framed: bytes, stream: bytes)
    requires Answers(read, resp, omitBody, work)
    ensures AsksHead(Wrote(read, framed, stream)) == (omitBody || Misjudged(read, framed, stream))
    ensures Misjudged(read, framed, stream) ==> !omitBody
  {
    hide ParseRequest, Dispatched, AsksHead;
    if !Unparsed(read) {
      TokenIsMethod(read.data);
    }
  }

  /** What a client that knows it asked with HEAD makes of an answer: the header block alone. */
  lemma HeadTaken(r: Response, rest: bytes)
    requires WellBuilt(r)
    ensures DecodeOne(Head(r) + rest, true) == Some((Reply(Head(r), []), |Head(r)|))
    ensures DecodeAll(Head(r) + rest, [true]) == ([Reply(Head(r), [])], rest)
  {
    hide WellBuilt, Head, DecodeOne;
    WireDecodes(r, true, rest);
    assert Wire(r, true) == Head(r);
    assert (Head(r) + rest)[|Head(r)|..] == rest;
    OneReply(Head(r) + rest, true, Reply(Head(r), []), |Head(r)|);
  }

  /** One whole answer decoded with the client's flag. */
  lemma LastAnswer(e: Exchange, asked: bool, misjudged: bool)
    requires Complete(e) && asked == (e.omitBody || misjudged) && (misjudged ==> !e.omitBody)
    ensures misjudged && BodyBytes(e.resp.body) != [] ==>
              DecodeAll(ExchangeWire(e), [asked]) == ([Reply(Head(e.resp), [])], BodyBytes(e.resp.body))
    ensures !(misjudged && BodyBytes(e.resp.body) != []) ==> DecodeAll(ExchangeWire(e), [asked]) == ([ReplyOf(e)], [])
  {
    hide WellBuilt, Head, BodyBytes, DecodeAll, Omits;
    if misjudged {
      HeadTaken(e.resp, BodyBytes(e.resp.body));
    } else {
      var es := [e];
      WholeStreamDecodes(es);
      assert es[1..] == [];
      assert WireAll(es) == ExchangeWire(e) + [] == ExchangeWire(e);
      assert Omits(es) == [asked];
      assert Replies(es) == [ReplyOf(e)];
    }
  }

  /** A cut answer decoded with the client's flag. */
  lemma CutAnswer(e: Exchange, sent: nat, asked: bool, misjudged: bool)
    requires WellBuilt(e.resp) && sent <= |ExchangeWire(e)| && sent < DeclaredSize(e.resp, e.omitBody)
    requires asked == (e.omitBody || misjudged) && (misjudged ==> !e.omitBody)
    ensures var w, h := ExchangeWire(e)[..sent], Head(e.resp);
            if misjudged && sent >= |h| then w == h + w[|h|..] && DecodeAll(w, [asked]) == ([Reply(h, [])], w[|h|..])
            else DecodeAll(w, [asked]) == ([], w)
  {
    hide WellBuilt, Head, BodyBytes, DecodeAll, DecodeOne;
    var w, h := ExchangeWire(e)[..sent], Head(e.resp);
    if !misjudged {
      TruncationDetected(e.resp, e.omitBody, sent);
      NothingDecodes(w, asked);
    } else if sent >= |h| {
      assert w == h + w[|h|..];
      HeadTaken(e.resp, w[|h|..]);
    } else {
      assert Wire(e.resp, true) == h;
      assert w == h[..sent];
      TruncationDetected(e.resp, true, sent);
      NothingDecodes(w, true);
    }
  }

  lemma KeptIsParsed(t: Served, count: nat)
    requires GoodTurn(t, count) && KeptOpen(t)
    ensures !Unparsed(t.read)
  {
    hide ParseRequest, Complete, SaysClose, AllFields, Answers, ShowsPolicy, WantsKeepAlive;
  }

  /** Before the last answer the client's flags are the server's. */
  lemma FlagsAgree(log: seq<Served>, framed: bytes, stream: bytes)
    requires GoodLog(log) && AllKept(log)
    ensures AskedHead(log, framed, stream) == Omits(Exchanges(log))
    ensures forall i :: 0 <= i < |log| ==> !Misjudged(log[i].read, framed, stream)
  {
    hide ParseRequest, Complete, SaysClose, AllFields, Answers, AsksHead, Wrote, Persists, ShowsPolicy;
    forall i | 0 <= i < |log|
      ensures !Misjudged(log[i].read, framed, stream)
      ensures AsksHead(Wrote(log[i].read, framed, stream)) == log[i].ex.omitBody
    {
      assert GoodTurn(log[i], i + 1) && KeptOpen(log[i]);
      KeptIsParsed(log[i], i + 1);
      FlagsDiffer(log[i].read, log[i].ex.resp, log[i].ex.omitBody, log[i].work, framed, stream);
    }
  }

  lemma SplitLast(log: seq<Served>, stream: bytes)
    requires log != []
    ensures var init, t, framed := log[..|log| - 1], log[|log| - 1], FramedBytes(log);
            && Exchanges(log) == Exchanges(init) + [t.ex]
            && AskedHead(log, framed, stream) ==
               AskedHead(init, framed, stream) + [AsksHead(Wrote(t.read, framed, stream))]
            && WireAll(Exchanges(log)) == WireAll(Exchanges(init)) + ExchangeWire(t.ex)
            && Replies(Exchanges(log)) == Replies(Exchanges(init)) + [ReplyOf(t.ex)]
  {
    hide AsksHead, Wrote, FramedBytes, ExchangeWire, ReplyOf, WireAll;
    var init, t := log[..|log| - 1], log[|log| - 1];
    assert Exchanges(log) == Exchanges(init) + [t.ex];
    WireAllSnoc(Exchanges(init), t.ex);
  }

  lemma TurnFlags(t: Served, count: nat, framed: bytes, stream: bytes)
    requires GoodTurn(t, count)
    ensures Complete(t.ex)
    ensures AsksHead(Wrote(t.read, framed, stream)) == (t.ex.omitBody || Misjudged(t.read, framed, stream))
    ensures Misjudged(t.read, framed, stream) ==> !t.ex.omitBody
  {
    hide ParseRequest, Complete, SaysClose, AllFields, Answers, AsksHead, Wrote, Persists, ShowsPolicy, Misjudged;
    FlagsDiffer(t.read, t.ex.resp, t.ex.omitBody, t.work, framed, stream);
  }

  /** A connection without a cut answer, decoded with the client's flags. */
  lemma WholeOutput(log: seq<Served>, stream: bytes)
    requires GoodLog(log) && log != [] && AllKept(log[..|log| - 1])
    ensures var init, t := Exchanges(log[..|log| - 1]), log[|log| - 1];
            DecodeAll(WireAll(Exchanges(log)), AskedHead(log, FramedBytes(log), stream)) ==
            if Unexpected(t, FramedBytes(log), stream)
            then (Replies(init) + [Reply(Head(t.ex.resp), [])], BodyBytes(t.ex.resp.body))
            else (Replies(init) + [ReplyOf(t.ex)], [])
  {
    hide AsksHead, Wrote, Misjudged, FramedBytes, ExchangeWire, ReplyOf, WireAll, DecodeAll, GoodTurn, KeptOpen, Head;
    hide BodyBytes, Exchanges, AskedHead, Replies, Complete;
    var init, t, framed := log[..|log| - 1], log[|log| - 1], FramedBytes(log);
    var asked := AsksHead(Wrote(t.read, framed, stream));
    SplitLast(log, stream);
    assert GoodLog(init);
    assert GoodTurn(t, |log|);
    TurnFlags(t, |log|, framed, stream);
    FlagsAgree(init, framed, stream);
    AllComplete(init);
    DecodePrefix(Exchanges(init), ExchangeWire(t.ex), [asked]);
    LastAnswer(t.ex, asked, Misjudged(t.read, framed, stream));
  }

  /** A connection whose last answer was cut, decoded with the client's flags. */
  lemma CutOutput(log: seq<Served>, stop: Stop, stream: bytes)
    requires GoodLog(log) && stop.SendCut? && GoodStop(log, stop)
    ensures var es, h := Exchanges(log), Head(stop.ex.resp);
            var extra := Misjudged(stop.read, FramedBytes(log), stream) && stop.sent >= |h|;
            && (extra ==> |h| <= |Tail(stop)|)
            && DecodeAll(WireAll(es) + Tail(stop), Asked(log, stop, stream)) ==
               if extra then (Replies(es) + [Reply(h, [])], Tail(stop)[|h|..]) else (Replies(es), Tail(stop))
  {
    hide AsksHead, Wrote, Misjudged, FramedBytes, ExchangeWire, Replies, WireAll, DecodeAll, GoodLog, AllKept;
    hide Head, WellBuilt, DeclaredSize, Answers;
    var framed := FramedBytes(log);
    var asked := AsksHead(Wrote(stop.read, framed, stream));
    FlagsAgree(log, framed, stream);
    AllComplete(log);
    FlagsDiffer(stop.read, stop.ex.resp, stop.ex.omitBody, stop.work, framed, stream);
    DecodePrefix(Exchanges(log), Tail(stop), [asked]);
    CutAnswer(stop.ex, stop.sent, asked, Misjudged(stop.read, framed, stream));
    assert Replies(Exchanges(log)) + [] == Replies(Exchanges(log));
  }

  /** What every run leaves to be decoded. */
  lemma EndedFacts(log: seq<Served>, stop: Stop, unread: bytes, out: bytes, stream: bytes)
    requires Ended(log, stop, unread, out, stream, [])
    ensures GoodLog(log) && GoodStop(log, stop) && out == WireAll(Exchanges(log)) + Tail(stop)
  {
    hide GoodLog, GoodStop, WireAll, FrameStream, TimeoutRule, InOrder, FramedBytes, ReadMatches, Tail, Exchanges;
    var w := WireAll(Exchanges(log));
    assert [] + w == w;
  }

  lemma StopFacts(log: seq<Served>, stop: Stop, stream: bytes)
    requires GoodStop(log, stop)
    ensures log != [] ==> AllKept(log[..|log| - 1])
    ensures !stop.SendCut? ==> WireAll(Exchanges(log)) + Tail(stop) == WireAll(Exchanges(log)) && Tail(stop) == []
    ensures !stop.SendCut? ==> Asked(log, stop, stream) == AskedHead(log, FramedBytes(log), stream)
  {
    hide KeptOpen, WireAll, ExchangeWire, FramedBytes, Answers, WellBuilt, DeclaredSize, AskedHead, Exchanges;
  }

  lemma NoneUnexpected(log: seq<Served>, framed: bytes, stream: bytes)
    requires GoodLog(log) && AllKept(log)
    ensures forall i :: 0 <= i < |log| ==> !Unexpected(log[i], framed, stream)
  {
    hide GoodLog, AllKept, Misjudged, BodyBytes;
    FlagsAgree(log, framed, stream);
  }

  lemma OnlyLastMisled(log: seq<Served>, stop: Stop, stream: bytes)
    requires GoodLog(log) && GoodStop(log, stop) && (log != [] ==> AllKept(log[..|log| - 1]))
    ensures !stop.SendCut? ==>
              (Misled(log, stop, stream) <==> log != [] && Unexpected(log[|log| - 1], FramedBytes(log), stream))
    ensures stop.SendCut? ==>
              (Misled(log, stop, stream) <==>
               Misjudged(stop.read, FramedBytes(log), stream) && stop.sent >= |Head(stop.ex.resp)|)
  {
    hide GoodTurn, KeptOpen, ExchangeWire, FramedBytes, Answers, WellBuilt, DeclaredSize, Misjudged, Head, Unexpected;
    var framed := FramedBytes(log);
    if stop.SendCut? {
      NoneUnexpected(log, framed, stream);
    } else if log != [] {
      var init := log[..|log| - 1];
      NoneUnexpected(init, framed, stream);
      assert forall i :: 0 <= i < |init| ==> log[i] == init[i];
    }
  }

  lemma NothingSent()
    ensures WireAll(Exchanges([])) == [] && Replies(Exchanges([])) == []
  {}

  lemma LastHasBody(log: seq<Served>, stream: bytes)
    requires log != []
    ensures Unexpected(log[|log| - 1], FramedBytes(log), stream) ==> BodyBytes(log[|log| - 1].ex.resp.body) != []
  {
    hide Misjudged, FramedBytes, BodyBytes;
  }

  /** Decodability as the client sees it: with the flags the client itself knows, the output of a run
      decodes to the answers sent, and the cut one as the rest, if and only if no request that asked
      with HEAD and gave no parsed request was answered with a body. */
  lemma ClientDecodes(log: seq<Served>, stop: Stop, unread: bytes, out: bytes, stream: bytes)
    requires Ended(log, stop, unread, out, stream, [])
    ensures DecodeAll(out, Asked(log, stop, stream)) == (Replies(Exchanges(log)), Tail(stop)) <==>
            !Misled(log, stop, stream)
  {
    hide Ended, GoodLog, GoodStop, AllKept, WireAll, DecodeAll, Misled, Unexpected, Misjudged, AskedHead, Asked;
    hide ReplyOf, Head, BodyBytes, FramedBytes, Tail;
    EndedFacts(log, stop, unread, out, stream);
    StopFacts(log, stop, stream);
    OnlyLastMisled(log, stop, stream);
    if stop.SendCut? {
      CutOutput(log, stop, stream);
    } else if log == [] {
      assert AskedHead(log, FramedBytes(log), stream) == [];
      NoFlags(out);
      assert out == [] by { NothingSent(); }
    } else {
      WholeOutput(log, stream);
      SplitLast(log, stream);
      LastHasBody(log, stream);
    }
  }

  /** Only the last answer can be misread: every other one, and every one whose request parsed, is
      decoded right in any case. */
  lemma OthersDecode(log: seq<Served>, stop: Stop, unread: bytes, out: bytes, stream: bytes, i: nat)
    requires Ended(log, stop, unread, out, stream, []) && i < |log|
    requires i < |log| - 1 || stop.SendCut? || !Unexpected(log[|log| - 1], FramedBytes(log), stream)
    ensures var replies := DecodeAll(out, Asked(log, stop, stream)).0;
            i < |replies| && replies[i] == ReplyOf(log[i].ex)
  {
    hide Ended, GoodLog, GoodStop, AllKept, WireAll, DecodeAll, Unexpected, Misjudged, AskedHead, Asked;
    hide ReplyOf, Head, BodyBytes, FramedBytes, Tail;
    EndedFacts(log, stop, unread, out, stream);
    StopFacts(log, stop, stream);
    if stop.SendCut? {
      CutOutput(log, stop, stream);
    } else {
      WholeOutput(log, stream);
    }
  }

  /** Persistence agreement, as the client reads it off the wire: a reply says close exactly when it
      is the last one of a connection that the server ends, and a hundredth reply always does. */
  lemma PersistenceAgreement(log: seq<Served>, stop: Stop, unread: bytes, out: bytes, stream: bytes,
                             sent0: bytes, i: nat)
    requires Ended(log, stop, unread, out, stream, sent0) && i < |log|
    ensures ReplySaysClose(ReplyOf(log[i].ex)) <==> i == |log| - 1 && stop.ByPolicy?
    ensures i + 1 == MAX_REQUESTS_PER_CONNECTION ==> ReplySaysClose(ReplyOf(log[i].ex))
  {
    hide WellBuilt, WireAll, ExchangeWire, DeclaredSize, FrameStream, TimeoutRule, InOrder, SaysClose;
    hide AllFields, Answers, ReplySaysClose, ReplyOf, ParseRequest, WantsKeepAlive;
    assert GoodTurn(log[i], i + 1);
    ClientSees(log[i].ex);
    KeepIsMessage(log[i], i + 1);
    var kept := if stop.ByPolicy? then log[..|log| - 1] else log;
    assert AllKept(kept);
    assert i < |kept| ==> kept[i] == log[i] && KeptOpen(kept[i]);
  }

  /** Over every run, a whole 200 answer to an echo request carries the body that was sent. */
  lemma EchoAnswered(log: seq<Served>, i: nat, r: Request)
    requires GoodLog(log) && i < |log| && log[i].read.Message? && ParseRequest(log[i].read.data) == Ok(r)
    requires Echoes(r) && log[i].ex.resp.status == 200
    ensures ReplyOf(log[i].ex).body == r.body
  {
    hide ParseRequest, WellBuilt, Complete, SaysClose, AllFields, Persists, StatusFits, BodyBytes, Head, ShowsPolicy;
    assert GoodTurn(log[i], i + 1);
  }

  /** End to end: a client writes any echo requests back to back, the bytes arrive in any pieces, and
      the server runs. What the client decodes from the output by Content-Length alone is, answer by
      answer, the body of its own request, wherever the status is 200. */
  lemma EchoConversation(rs: seq<Request>, log: seq<Served>, stop: Stop, unread: bytes, out: bytes, i: nat)
    requires forall k :: 0 <= k < |rs| ==> RoundTrip.WellFormed(rs[k]) && RoundTrip.Fits(rs[k]) && Echoes(rs[k])
    requires Ended(log, stop, unread, out, RoundTrip.PrintAll(rs), [])
    requires i < |log| && log[i].read.Message? && log[i].ex.resp.status == 200
    ensures var replies := DecodeAll(out, Asked(log, stop, RoundTrip.PrintAll(rs))).0;
            i < |rs| && i < |replies| && replies[i].body == rs[i].body
  {
    hide ParseRequest, RoundTrip.WellFormed, RoundTrip.Fits, Echoes, GoodLog, GoodStop, DecodeAll, FrameStream;
    hide TimeoutRule, WireAll, RoundTrip.PrintAll, ReplyOf, FramedBytes, Asked, Tail;
    var stream := RoundTrip.PrintAll(rs);
    RoundTrip.PrintedStream(rs);
    assert ReadMatches(log[i].read, FrameStream(stream), i);
    assert !Unparsed(log[i].read);
    OthersDecode(log, stop, unread, out, stream, i);
    EchoAnswered(log, i, rs[i]);
  }

  /** Nothing that is to be answered goes unanswered unless its response could not be built: a run that
      ends otherwise ends by policy, on a cut answer, or without anything to answer. A timeout with a
      request begun is then answered with a 408, whole or cut. */
  lemma EveryReadAnswered(log: seq<Served>, stop: Stop, unread: bytes, out: bytes, stream: bytes, sent0: bytes,
                          before: Troubles, after: Troubles)
    requires Ended(log, stop, unread, out, stream, sent0) && Explained(log, stop, before, after)
    requires after.builds <= before.builds + 1
    ensures !stop.NoAnswer?
    ensures LastRead(log, stop).Timeout? && !stop.IdleTimeout? ==>
              if stop.SendCut? then stop.ex.resp.status == 408
              else log != [] && log[|log| - 1].read.Timeout? && log[|log| - 1].ex.resp.status == 408
  {
    hide FrameStream, WireAll, FramedBytes, TimeoutRule, InOrder, KeptOpen, WellBuilt, DeclaredSize, ExchangeWire;
    if stop.ByPolicy? {
      assert GoodTurn(log[|log| - 1], |log|);
    }
  }

  /** A run in which no call fails ends by policy, because the peer closed, or with a timeout. */
  lemma UntroubledRun(log: seq<Served>, stop: Stop, before: Troubles, after: Troubles)
    requires Explained(log, stop, before, after)
    requires after.builds == before.builds && after.reading == before.reading && after.sending == before.sending
    ensures stop.ByPolicy? || stop.ClientGone? || stop.IdleTimeout?
    ensures forall i :: 0 <= i < |log| ==> !log[i].work.failed
  {}

  /** An echo request is answered 200 unless a handler failed. */
  lemma EchoSucceeds(log: seq<Served>, i: nat, r: Request)
    requires GoodLog(log) && i < |log| && log[i].read.Message? && ParseRequest(log[i].read.data) == Ok(r)
    requires Echoes(r) && !log[i].work.failed
    ensures log[i].ex.resp.status == 200
  {
    hide ParseRequest, WellBuilt, Complete, SaysClose, AllFields, Persists, BodyBytes, ShowsPolicy, BeforeQuery;
    assert GoodTurn(log[i], i + 1);
    EchoIsApi(r);
    PathsDiffer();
  }

  lemma KeptIsMessage(t: Served)
    requires KeptOpen(t)
    ensures t.read.Message?
  {}

  /** And the whole conversation: if no call fails and the peer is found closed, the client has got one
      reply for each echo request it wrote, in order, each with the body it sent. */
  lemma EchoComplete(rs: seq<Request>, log: seq<Served>, stop: Stop, unread: bytes, out: bytes,
                     before: Troubles, after: Troubles, i: nat)
    requires forall k :: 0 <= k < |rs| ==> RoundTrip.WellFormed(rs[k]) && RoundTrip.Fits(rs[k]) && Echoes(rs[k])
    requires Ended(log, stop, unread, out, RoundTrip.PrintAll(rs), []) && Explained(log, stop, before, after)
    requires after.builds == before.builds && stop.ClientGone? && i < |rs|
    ensures |log| == |rs|
    ensures var replies := DecodeAll(out, Asked(log, stop, RoundTrip.PrintAll(rs))).0;
            i < |replies| && replies[i].body == rs[i].body
  {
    hide ParseRequest, RoundTrip.WellFormed, RoundTrip.Fits, Echoes, GoodLog, DecodeAll, FrameStream, GoodTurn;
    hide TimeoutRule, WireAll, RoundTrip.PrintAll, FramedBytes, Asked, Tail, KeptOpen;
    var stream := RoundTrip.PrintAll(rs);
    RoundTrip.PrintedStream(rs);
    assert ReadMatches(log[i].read, FrameStream(stream), i);
    assert KeptOpen(log[i]);
    KeptIsMessage(log[i]);
    EchoSucceeds(log, i, rs[i]);
    EchoConversation(rs, log, stop, unread, out, i);
  }

  /** Over every run, a static request whose decoded path climbs above the root is answered 403. */
  lemma ClimbingIsForbidden(log: seq<Served>, i: nat, r: Request)
    requires GoodLog(log) && i < |log| && log[i].read.Message? && ParseRequest(log[i].read.data) == Ok(r)
    requires !ApiTarget(r.line.target) && (r.line.meth.GET? || r.line.meth.HEAD?)
    requires r.line.target != [] && r.line.target[0] == SLASH
    requires UrlDecode.Decode(UrlDecode.PathPart(r.line.target)).Some?
    requires var path := UrlDecode.Decode(UrlDecode.PathPart(r.line.target)).value;
             path != [] && StaticPath.Escapes(SplitOn(path[1..], SLASH))
    ensures log[i].ex.resp.status == 403
  {
    hide ParseRequest, WellBuilt, Complete, SaysClose, AllFields, Persists, ApiTarget, Echoes, ShowsPolicy;
    hide UrlDecode.Decode, UrlDecode.PathPart, StaticPath.Escapes, SplitOn, StaticPath.Relative;
    assert GoodTurn(log[i], i + 1);
    StaticPath.RelativeErrors(r.line.target);
  }
}
