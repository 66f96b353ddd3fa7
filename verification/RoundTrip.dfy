/** Parsing inverts printing. */
module RoundTrip {
  import opened Bytes
  import opened Lines
  import opened Framing
  import opened Parser
  import opened Stream
  import opened Printing

  function LineText(l: RequestLine): bytes {
    MethodToken(l.meth) + [SP] + (l.target + [SP] + l.version)
  }

  /** The header block of the canonical form, through its blank line. */
  function PrintHead(r: Request): bytes {
    BlockOf(LineText(r.line), r.headers)
  }

  /** The canonical form: request line, `name: value` lines, blank line, body. */
  function Print(r: Request): bytes { PrintHead(r) + r.body }

  ghost predicate WellFormedLine(l: RequestLine) {
    && l.target != [] && Clean(l.target) && SP !in l.target
    && SupportedVersion(l.version)
    && |LineText(l)| <= MAX_REQUEST_LINE
  }

  ghost predicate WellFormed(r: Request) {
    && WellFormedLine(r.line)
    && |r.headers| <= MAX_HEADERS
    && (forall i :: 0 <= i < |r.headers| ==> WellFormedField(r.headers[i]))
    && Declares(r.headers, |r.body|)
  }

  predicate Fits(r: Request) { |PrintHead(r)| <= MAX_HEADER_BYTES }

  // ------------------------------------------------------------ request line

  lemma TokensAreTokens(m: Method)
    ensures WellFormedToken(MethodToken(m)) && Clean(MethodToken(m)) && SP !in MethodToken(m)
    ensures MethodOf(MethodToken(m)) == Some(m)
  {}

  lemma VersionsAreClean(v: bytes)
    requires SupportedVersion(v)
    ensures v != [] && Clean(v) && SP !in v
  {}

  lemma TargetParses(token: bytes, m: Method, target: bytes, version: bytes)
    requires MethodOf(token) == Some(m)
    requires target != [] && Clean(target) && SP !in target && SupportedVersion(version)
    ensures ParseTargetAndVersion(token, target + [SP] + version) == Ok(RequestLine(m, target, version))
  {
    VersionsAreClean(version);
    var after := target + [SP] + version;
    IndexOfIs(after, SP, |target|);
    assert after[..|target|] == target;
    assert after[|target| + 1..] == version;
  }

  lemma LineParses(l: RequestLine)
    requires WellFormedLine(l)
    ensures ParseRequestLine(LineText(l)) == Ok(l)
  {
    var token, after := MethodToken(l.meth), l.target + [SP] + l.version;
    var text := token + [SP] + after;
    TokensAreTokens(l.meth);
    IndexOfIs(text, SP, |token|);
    assert text[..|token|] == token;
    assert text[|token| + 1..] == after;
    TargetParses(token, l.meth, l.target, l.version);
  }

  lemma MethodOfToken(token: bytes)
    requires MethodOf(token).Some?
    ensures MethodToken(MethodOf(token).value) == token
  {}

  lemma ParsedTarget(token: bytes, after: bytes, l: RequestLine)
    requires LF !in after && ParseTargetAndVersion(token, after) == Ok(l)
    ensures MethodToken(l.meth) == token && SupportedVersion(l.version)
    ensures l.target != [] && Clean(l.target) && SP !in l.target
    ensures after == l.target + [SP] + l.version
  {
    var sp := IndexOf(after, SP);
    assert after == after[..sp] + [SP] + after[sp + 1..];
    MethodOfToken(token);
  }

  /** An accepted request line is exactly the text of what was read from it. */
  lemma ParsedLine(text: bytes)
    requires LF !in text && ParseRequestLine(text).Ok?
    ensures WellFormedLine(ParseRequestLine(text).value)
    ensures LineText(ParseRequestLine(text).value) == text
  {
    hide ParseTargetAndVersion, WellFormedToken;
    var l := ParseRequestLine(text).value;
    var sp := IndexOf(text, SP);
    var token, after := text[..sp], text[sp + 1..];
    assert LF !in after;
    ParsedTarget(token, after, l);
    assert text == token + [SP] + after;
  }

  // ------------------------------------------------------------------ fields

  /** What splitting alone guarantees of a field. */
  ghost predicate RawField(h: Header) {
    h.name != [] && COLON !in h.name && LF !in h.name && LF !in h.value && Trimmed(h.value)
  }

  lemma SplitFieldGood(text: bytes)
    requires LF !in text && SplitField(text).Some?
    ensures RawField(SplitField(text).value)
  {
    var colon := IndexOf(text, COLON);
    assert forall c :: c in text[..colon] ==> c in text;
    assert forall c :: c in text[colon + 1..] ==> c in text;
  }

  lemma {:induction false} FieldsGood(s: bytes)
    requires Fields(s).Some?
    ensures forall h :: h in Fields(s).value ==> RawField(h)
    decreases |s|
  {
    if s != [] {
      var Line(text, rest) := CutLine(s);
      assert LF !in text;
      SplitFieldGood(text);
      FieldsGood(rest);
    }
  }

  // ---------------------------------------------------------------- messages

  lemma LineTextGood(l: RequestLine)
    requires WellFormedLine(l)
    ensures LineText(l) != [] && LF !in LineText(l)
  {
    hide MethodToken, SupportedVersion;
    TokensAreTokens(l.meth);
    VersionsAreClean(l.version);
  }

  /** The header block of a printed request is found again, and cut into the printed lines. */
  lemma PrintedHead(r: Request)
    requires WellFormed(r)
    ensures FirstTerm(Print(r)) == |PrintHead(r)| - 4 && FirstTerm(PrintHead(r)) == |PrintHead(r)| - 4
    ensures |PrintHead(r)| >= 4 && HeaderPart(Print(r)) == PrintHead(r)
    ensures CutLine(PrintHead(r)).Line? && CutLine(PrintHead(r)).text == LineText(r.line)
    ensures AfterRequestLine(PrintHead(r)).Some?
    ensures Fields(AfterRequestLine(PrintHead(r)).value) == Some(r.headers)
  {
    hide LineText, BlockOf, FirstTerm, CutLine, Fields, AfterRequestLine, HeaderPart, Declares, WellFormedLine;
    LineTextGood(r.line);
    BlockFound(LineText(r.line), r.headers, r.body);
  }

  /** The framing pass reads off a printed request the length of its body. */
  lemma PrintedFraming(r: Request)
    requires WellFormed(r)
    ensures InspectFraming(PrintHead(r)) == Ok(|r.body|)
  {
    hide InspectFraming, FirstTerm, CutLine, PrintHead, Fields, AfterRequestLine, Declares;
    PrintedHead(r);
    SeenIsGood(r.headers);
    FramingMeaning(PrintHead(r), |r.body|);
  }

  /** Every well-formed request within the limits prints to a message that parses back to it. */
  lemma PrintParses(r: Request)
    requires WellFormed(r) && Fits(r)
    ensures ParseRequest(Print(r)) == Ok(r)
  {
    hide ParseRequest, ParseRequestLine, InspectFraming, JudgeFields, Fields, CutLine, FirstTerm, AfterRequestLine;
    hide PrintHead, LineText, WellFormedLine, Declares;
    var h, d := PrintHead(r), Print(r);
    PrintedHead(r);
    PrintedFraming(r);
    LineParses(r.line);
    JudgeFieldsIs(r.headers, []);
    assert [] + r.headers == r.headers;
    assert d[|h|..] == r.body;
    OnlySyntaxFails(d, h, |r.body|);
  }

  lemma RawGood(h: Header)
    requires RawField(h) && GoodField(h)
    ensures WellFormedField(h)
  {}

  lemma JudgedFieldsGood(s: bytes, hs: seq<Header>)
    requires Fields(s).Some? && JudgeFields(Fields(s).value, []) == Ok(hs)
    ensures |hs| <= MAX_HEADERS && forall i :: 0 <= i < |hs| ==> WellFormedField(hs[i])
  {
    var raw := Fields(s).value;
    FieldsGood(s);
    JudgeFieldsIs(raw, []);
    assert [] + raw == raw;
    forall i | 0 <= i < |hs| ensures WellFormedField(hs[i]) {
      assert hs[i] in raw;
      RawGood(hs[i]);
    }
  }

  lemma FramedDeclares(h: bytes, body: bytes, n: nat)
    requires |h| >= 4 && FirstTerm(h) == |h| - 4 && InspectFraming(h) == Ok(n)
    requires ParseFramed(h, body, n).Ok?
    ensures Declares(ParseFramed(h, body, n).value.headers, n)
    ensures ParseFramed(h, body, n).value.body == body
  {
    TwoPassAgreement(h, n);
  }

  lemma ParsedFrame(d: bytes)
    requires ParseRequest(d).Ok?
    ensures FirstTerm(d) >= 0 && FirstTerm(HeaderPart(d)) == |HeaderPart(d)| - 4
    ensures 4 <= |HeaderPart(d)| <= |d| && |HeaderPart(d)| <= MAX_HEADER_BYTES
    ensures var body := d[|HeaderPart(d)|..];
            && InspectFraming(HeaderPart(d)) == Ok(|body|)
            && ParseFramed(HeaderPart(d), body, |body|) == ParseRequest(d)
  {
    hide ParseFramed, InspectFraming;
    FirstTermPrefix(HeaderPart(d), d);
  }

  /** The fields of an accepted message declare the length of its body. */
  lemma ParsedDeclares(d: bytes)
    requires ParseRequest(d).Ok?
    ensures Declares(ParseRequest(d).value.headers, |ParseRequest(d).value.body|)
  {
    hide *;
    ParsedFrame(d);
    var h := HeaderPart(d);
    var body := d[|h|..];
    FramedDeclares(h, body, |body|);
  }

  /** Whatever the parser accepts is well formed. */
  lemma ParsedIsWellFormed(d: bytes)
    requires ParseRequest(d).Ok?
    ensures WellFormed(ParseRequest(d).value)
  {
    hide ParseRequest, ParseFramed, ParseRequestLine, InspectFraming, JudgeFields, Fields;
    ParsedFrame(d);
    ParsedDeclares(d);
    var r := ParseRequest(d).value;
    var h := HeaderPart(d);
    OnlySyntaxFails(d, h, |d[|h|..]|);
    JudgedFieldsGood(AfterRequestLine(h).value, r.headers);
    var text := CutLine(h).text;
    assert LF !in text;
    ParsedLine(text);
  }

  /** An accepted message starts with the request line that was read from it. */
  lemma ParsedStart(d: bytes)
    requires ParseRequest(d).Ok?
    ensures LineText(ParseRequest(d).value.line) <= d
  {
    hide ParseRequest, ParseFramed, ParseRequestLine, InspectFraming, JudgeFields, Fields, LineText, IndexOf;
    ParsedFrame(d);
    var h := HeaderPart(d);
    OnlySyntaxFails(d, h, |d[|h|..]|);
    var text := CutLine(h).text;
    assert LF !in text;
    ParsedLine(text);
    assert text <= h;
  }

  /** Request round trip: an accepted message, printed canonically, parses to the same request
      whenever the canonical header block fits the header limit. */
  lemma RequestRoundTrip(d: bytes)
    requires ParseRequest(d).Ok?
    ensures ParseRequest(Print(ParseRequest(d).value)) == ParseRequest(d) <==> Fits(ParseRequest(d).value)
  {
    var r := ParseRequest(d).value;
    ParsedIsWellFormed(d);
    if Fits(r) {
      PrintParses(r);
    } else {
      PrintedHead(r);
    }
  }

  // --------------------------------------------------- pipelined requests

  function PrintAll(rs: seq<Request>): bytes {
    if rs == [] then [] else Print(rs[0]) + PrintAll(rs[1..])
  }

  /** Whatever follows a printed request, the reader cuts exactly that request off. */
  lemma PrintedExtracts(r: Request, rest: bytes)
    requires WellFormed(r) && Fits(r)
    ensures Extract(Print(r) + rest) == Ready(|Print(r)|)
  {
    hide InspectFraming, PrintHead, FirstTerm, WellFormed, TermAt, HeaderPart;
    var p, h := Print(r), PrintHead(r);
    PrintedHead(r);
    PrintedFraming(r);
    NoBodyOverflow(h);
    HeaderPartPrefix(p, p + rest);
  }

  lemma EmptyNeedsMore()
    ensures Extract([]) == NeedMore
  {}

  lemma {:induction false} PrintedStream(rs: seq<Request>)
    requires forall i :: 0 <= i < |rs| ==> WellFormed(rs[i]) && Fits(rs[i])
    ensures FrameStream(PrintAll(rs)).end == Closed
    ensures |FrameStream(PrintAll(rs)).messages| == |rs|
    ensures forall i :: 0 <= i < |rs| ==> ParseRequest(FrameStream(PrintAll(rs)).messages[i]) == Ok(rs[i])
  {
    hide Extract, Print, WellFormed, Fits, ParseRequest;
    var s := PrintAll(rs);
    if rs == [] {
      EmptyNeedsMore();
    } else {
      var p, more := Print(rs[0]), PrintAll(rs[1..]);
      PrintedExtracts(rs[0], more);
      assert s[..|p|] == p;
      assert s[|p|..] == more;
      ReadyBounds(s);
      PrintParses(rs[0]);
      PrintedStream(rs[1..]);
    }
  }

  /** Reader and parser together: any number of well-formed requests, written one after another
      and delivered in any pieces, are read back as exactly those requests in that order. */
  lemma PipelinedRequests(rs: seq<Request>, pieces: seq<bytes>)
    requires forall i :: 0 <= i < |rs| ==> WellFormed(rs[i]) && Fits(rs[i])
    requires Flatten(pieces) == PrintAll(rs)
    ensures RunReader([], pieces).end == Closed
    ensures |RunReader([], pieces).messages| == |rs|
    ensures forall i :: 0 <= i < |rs| ==> ParseRequest(RunReader([], pieces).messages[i]) == Ok(rs[i])
  {
    hide *;
    FragmentationIndependence([], pieces);
    assert [] + Flatten(pieces) == PrintAll(rs);
    PrintedStream(rs);
  }
}
