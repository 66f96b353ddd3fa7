/** Requests at which the server does not do what its documentation or the standard promises. */
module Deviations {
  import opened Bytes
  import opened Lines
  import opened Framing
  import opened Parser
  import opened Printing
  import RoundTrip
  import opened Stream
  import opened Reader
  import opened Responses
  import opened ResponseStream
  import opened Persistence
  import opened ResponseObject
  import opened Dispatch
  import opened ClientHandler
  import opened Conversation

  // --------------------------------------------- a HEAD request that does not parse

  const ROOT: bytes := [SLASH]
  const HTTP_2_0: bytes := [72, 84, 84, 80, 47, 50, 46, 48]  // HTTP/2.0

  function HeadText(target: bytes, version: bytes): bytes {
    HEAD_TOKEN + [SP] + (target + [SP] + version)
  }

  /** The message `HEAD target version` without any field. */
  function HeadMessage(target: bytes, version: bytes): bytes { BlockOf(HeadText(target, version), []) }

  /** A version the parser knows to be HTTP but does not support, behind a target it accepts. */
  predicate Unsupported(target: bytes, version: bytes) {
    && target != [] && Clean(target) && SP !in target
    && HttpLikeVersion(version) && !SupportedVersion(version)
    && |HeadText(target, version)| <= MAX_REQUEST_LINE
  }

  lemma HttpLikeIsClean(v: bytes)
    requires HttpLikeVersion(v)
    ensures v != [] && Clean(v) && SP !in v
  {
    assert forall i :: 0 <= i < 5 ==> v[i] == HTTP_SLASH[i];
  }

  lemma HeadLineRefused(target: bytes, version: bytes)
    requires Unsupported(target, version)
    ensures ParseRequestLine(HeadText(target, version)) == Err(UnsupportedVersion)
    ensures HeadText(target, version) != [] && LF !in HeadText(target, version)
  {
    hide HttpLikeVersion, WellFormedToken;
    var after, text := target + [SP] + version, HeadText(target, version);
    HttpLikeIsClean(version);
    RoundTrip.TokensAreTokens(HEAD);
    IndexOfIs(text, SP, |HEAD_TOKEN|);
    assert text[..|HEAD_TOKEN|] == HEAD_TOKEN;
    assert text[|HEAD_TOKEN| + 1..] == after;
    IndexOfIs(after, SP, |target|);
    assert after[..|target|] == target;
    assert after[|target| + 1..] == version;
  }

  lemma BlockSize(text: bytes)
    ensures |BlockOf(text, [])| == |text| + 4
    ensures text <= BlockOf(text, [])
  {
    var texts := [text] + FieldTexts([]);
    assert texts == [text] && texts[1..] == [];
    assert JoinLines(texts[1..]) == [];
    assert JoinLines(texts) == text + CRLF + [];
  }

  lemma NothingDeclared()
    ensures Declares(SeenAll([]), 0)
  {
    assert SeenAll([]) == [];
  }

  lemma LineFits(target: bytes, version: bytes)
    requires Unsupported(target, version)
    ensures |HeadText(target, version)| <= MAX_REQUEST_LINE
  {}

  /** The reader returns such a message, the parser refuses it, and its client asked with HEAD. */
  lemma HeadRefused(target: bytes, version: bytes)
    requires Unsupported(target, version)
    ensures var d := HeadMessage(target, version);
            Extract(d) == Extraction.Ready(|d|) && ParseRequest(d) == Err(UnsupportedVersion) && AsksHead(d)
  {
    hide BlockOf, FirstTerm, CutLine, Fields, AfterRequestLine, ParseRequest, ParseRequestLine, InspectFraming;
    hide Unsupported;
    hide Declares, JudgeFields;
    var text, d := HeadText(target, version), HeadMessage(target, version);
    HeadLineRefused(target, version);
    BlockFound(text, [], []);
    assert d + [] == d;
    BlockSize(text);
    NothingDeclared();
    FramingMeaning(d, 0);
    assert |text| <= MAX_REQUEST_LINE by { LineFits(target, version); }
    OnlySyntaxFails(d, d, 0);
    assert HEAD_TOKEN + [SP] <= text;
  }

  /** `HEAD / HTTP/2.0` is one of them. */
  lemma HeadHttp2()
    ensures Unsupported(ROOT, HTTP_2_0)
  {
    assert HTTP_SLASH == HTTP_2_0[..5];
    assert HTTP_2_0[5] != HTTP_1_0[5] && HTTP_2_0[5] != HTTP_1_1[5];
  }

  lemma OneMessage(d: bytes)
    requires Extract(d) == Extraction.Ready(|d|)
    ensures FrameStream(d).messages == [d]
  {
    hide Extract;
    ReadyBounds(d);
    RoundTrip.EmptyNeedsMore();
    assert d[|d|..] == [] && d[..|d|] == d;
    assert FrameStream([]).messages == [];
  }

  /** A message that is answered with an error page, body included. */
  function Refusal(d: bytes, resp: Response): Served {
    Served(Message(d), Exchange(resp, false), Work(false, [], Missing, resp))
  }

  lemma RefusalIsGood(d: bytes, resp: Response)
    requires ParseRequest(d) == Err(UnsupportedVersion)
    requires WellBuilt(resp) && Whole(resp.body) && resp.status == 505 && SaysClose(AllFields(resp))
    ensures GoodTurn(Refusal(d, resp), 1) && !KeptOpen(Refusal(d, resp))
  {
    hide WellBuilt, Whole, SaysClose, AllFields, ParseRequest, FirstNamed, NoneNamed, WantsKeepAlive, EqualCI;
  }

  lemma FirstOf(d: bytes)
    requires Extract(d) == Extraction.Ready(|d|)
    ensures ToAnswer([], Message(d), [], [], d)
  {
    hide Extract, FrameStream, ReadMatches;
    var c := FrameStream(d);
    assert c.messages[0..] == c.messages;
    assert d + [] == d;
    TakeNext(c, 0, d, d, []);
    assert FramedBytes([]) + d + [] == d;
  }

  lemma HeadRun(d: bytes, resp: Response)
    requires Extract(d) == Extraction.Ready(|d|) && ParseRequest(d) == Err(UnsupportedVersion)
    requires WellBuilt(resp) && Whole(resp.body) && resp.status == 505 && SaysClose(AllFields(resp))
    ensures Ended([Refusal(d, resp)], ByPolicy, [], Wire(resp, false), d, [])
  {
    hide WellBuilt, Whole, SaysClose, AllFields, Wire, ParseRequest, Extract, FrameStream, GoodTurn, KeptOpen;
    hide Ended, Serving, Persists, ReadMatches;
    var t := Refusal(d, resp);
    RefusalIsGood(d, resp);
    Start(d, []);
    FirstOf(d);
    KeepIsMessage(t, 1);
    Turned([], t, d, [], [], [], d, []);
    assert [] + [t] == [t];
    assert [] + Wire(resp, false) == Wire(resp, false);
  }

  /** The outcome such a request leads to: one 505 with the body of its error page. The client takes the
      header block for the whole answer and is left with the body. */
  lemma HeadGetsBody(target: bytes, version: bytes, resp: Response)
    requires Unsupported(target, version)
    requires WellBuilt(resp) && Whole(resp.body) && BodyBytes(resp.body) != []
    requires resp.status == 505 && SaysClose(AllFields(resp))
    ensures var d := HeadMessage(target, version);
            var log := [Refusal(d, resp)];
            && Ended(log, ByPolicy, [], Wire(resp, false), d, [])
            && Misled(log, ByPolicy, d)
            && DecodeAll(Wire(resp, false), Asked(log, ByPolicy, d)) == ([Reply(Head(resp), [])], BodyBytes(resp.body))
  {
    hide WellBuilt, SaysClose, AllFields, Head, BodyBytes, DecodeAll, HeadMessage, Unsupported, ParseRequest;
    hide AsksHead, Ended;
    var d := HeadMessage(target, version);
    var t := Refusal(d, resp);
    HeadRefused(target, version);
    HeadRun(d, resp);
    assert Unexpected([t][0], FramedBytes([t]), d);
    HeadTaken(resp, BodyBytes(resp.body));
    assert Asked([t], ByPolicy, d) == [true];
  }

  lemma FirstEnds(log: seq<Served>)
    requires log != [] && !KeptOpen(log[0])
    ensures !AllKept(log) && (|log| > 1 ==> !AllKept(log[..|log| - 1]))
  {
    hide KeptOpen;
    assert |log| > 1 ==> log[..|log| - 1][0] == log[0];
  }

  lemma RefusedTurn(t: Served, d: bytes)
    requires t.read == Message(d) && ParseRequest(d) == Err(UnsupportedVersion) && GoodTurn(t, 1)
    ensures t.ex.resp.status == 505 && !t.ex.omitBody && !KeptOpen(t)
  {
    hide ParseRequest, Complete, SaysClose, AllFields, ShowsPolicy, WantsKeepAlive;
  }

  /** Every run on such a request that answers it at all ends so: one answer, a 505, sent with its body if
      it has one, and then the client is misled. */
  lemma HeadAlwaysMisled(target: bytes, version: bytes, log: seq<Served>, stop: Stop, unread: bytes, out: bytes)
    requires Unsupported(target, version)
    requires Ended(log, stop, unread, out, HeadMessage(target, version), [])
    requires log != [] && log[0].read.Message?
    ensures |log| == 1 && stop.ByPolicy?
    ensures log[0].ex.resp.status == 505 && !log[0].ex.omitBody
    ensures Misled(log, stop, HeadMessage(target, version)) <==> BodyBytes(log[0].ex.resp.body) != []
  {
    hide ParseRequest, HeadMessage, Unsupported, AsksHead, Extract, FrameStream, GoodTurn, KeptOpen, WireAll, BodyBytes;
    hide FramedBytes, TimeoutRule;
    var d := HeadMessage(target, version);
    HeadRefused(target, version);
    OneMessage(d);
    assert ReadMatches(log[0].read, FrameStream(d), 0);
    assert log[0].read == Message(d);
    assert GoodTurn(log[0], 1);
    RefusedTurn(log[0], d);
    FirstEnds(log);
    assert Unexpected(log[0], FramedBytes(log), d) <==> BodyBytes(log[0].ex.resp.body) != [];
  }

  // ------------------------------------------------- a close in a second field

  /** A request whose second Connection field says close. */
  function SecondClose(line: RequestLine): Request {
    Request(line, [Header(CONNECTION, KEEP_ALIVE), Header(CONNECTION, CLOSE)], [])
  }

  lemma LineShort(line: RequestLine)
    requires RoundTrip.WellFormedLine(line)
    ensures |RoundTrip.LineText(line)| <= MAX_REQUEST_LINE
  {}

  lemma FieldTextIs(h: Header)
    ensures |FieldText(h)| == |h.name| + |h.value| + 2
  {}

  lemma NoLengthFields(a: bytes, b: bytes)
    ensures CountNamed([Header(CONNECTION, a), Header(CONNECTION, b)], CONTENT_LENGTH) == 0
    ensures CountNamed([Header(CONNECTION, a), Header(CONNECTION, b)], TRANSFER_ENCODING) == 0
  {
    hide CountNamed;
    var x, y := Header(CONNECTION, a), Header(CONNECTION, b);
    assert |CONNECTION| != |CONTENT_LENGTH| && |CONNECTION| != |TRANSFER_ENCODING|;
    CountOne(x, CONTENT_LENGTH);
    CountOne(y, CONTENT_LENGTH);
    CountOne(x, TRANSFER_ENCODING);
    CountOne(y, TRANSFER_ENCODING);
    CountAppend([x], [y], CONTENT_LENGTH);
    CountAppend([x], [y], TRANSFER_ENCODING);
    assert [x] + [y] == [x, y];
  }

  lemma TwoFieldBlock(text: bytes, a: Header, b: Header)
    ensures |BlockOf(text, [a, b])| == |text| + |FieldText(a)| + |FieldText(b)| + 8
  {
    hide FieldText;
    var texts := [text] + FieldTexts([a, b]);
    var last := [FieldText(b)];
    var both := [FieldText(a)] + last;
    assert texts == [text] + both;
    assert last[1..] == [] && both[1..] == last && texts[1..] == both;
    assert JoinLines(last) == FieldText(b) + CRLF + [];
    assert JoinLines(both) == FieldText(a) + CRLF + JoinLines(last);
  }

  lemma SecondCloseWellFormed(line: RequestLine)
    requires RoundTrip.WellFormedLine(line)
    ensures RoundTrip.WellFormed(SecondClose(line)) && RoundTrip.Fits(SecondClose(line))
  {
    hide RoundTrip.WellFormedLine, WellFormedField, CountNamed, FirstNamed, RoundTrip.LineText, FieldText, EqualCI;
    var r := SecondClose(line);
    CloseIsClean();
    ConnectionFieldGood(KEEP_ALIVE);
    ConnectionFieldGood(CLOSE);
    NoLengthFields(KEEP_ALIVE, CLOSE);
    TwoFieldBlock(RoundTrip.LineText(line), r.headers[0], r.headers[1]);
    FieldTextIs(r.headers[0]);
    FieldTextIs(r.headers[1]);
    LineShort(line);
  }

  lemma SameName(name: bytes)
    ensures EqualCI(name, name)
  {}

  /** The parser accepts such a request, the combined list says close, and the server keeps the
      connection open whenever the status of its answer allows it. */
  lemma SecondCloseIgnored(line: RequestLine)
    requires RoundTrip.WellFormedLine(line) && line.version == HTTP_1_1
    ensures var r := SecondClose(line);
            && ParseRequest(RoundTrip.Print(r)) == Ok(r)
            && WantsKeepAlive(r) && !CombinedWish(r) && Overlooked(r)
  {
    hide HasToken, EqualCI, RoundTrip.WellFormedLine, RoundTrip.WellFormed, RoundTrip.Fits, ParseRequest;
    hide RoundTrip.Print;
    var r := SecondClose(line);
    SecondCloseWellFormed(line);
    RoundTrip.PrintParses(r);
    TokensOfPolicy();
    assert EqualCI(CONNECTION, CONNECTION) by { SameName(CONNECTION); }
    assert r.headers[1].value == CLOSE;
    FirstFieldDecides(r);
  }

  lemma SecondCloseKept(line: RequestLine, t: Served, count: nat)
    requires RoundTrip.WellFormedLine(line) && line.version == HTTP_1_1
    requires t.read == Message(RoundTrip.Print(SecondClose(line))) && GoodTurn(t, count)
    requires !RequiresClose(t.ex.resp.status) && count < MAX_REQUESTS_PER_CONNECTION
    ensures KeptOpen(t)
  {
    hide ParseRequest, RoundTrip.WellFormedLine, RoundTrip.Print, WantsKeepAlive, CombinedWish, Overlooked;
    hide GoodTurn, KeptOpen;
    SecondCloseIgnored(line);
    KeepIsMessage(t, count);
  }
}
