/** Cutting a byte stream into messages, as a function of the stream alone. */
module Stream {
  import opened Bytes
  import opened Lines
  import opened Framing
  import opened Parser

  const MAX_MESSAGE_BYTES: nat := MAX_HEADER_BYTES + MAX_BODY_SIZE
  const RECV_CHUNK: nat := 4096

  datatype Extraction = NeedMore | Ready(length: nat) | Fail(why: ParseError)

  /** `map_framing_error`. */
  function MapFramingError(e: ParseError): ParseError {
    match e
    case TooLarge => TooLarge
    case UnsupportedTransferEncoding => UnsupportedTransferEncoding
    case InvalidContentLength => InvalidContentLength
    case _ => BadRequest
  }

  /** `try_extract_length` once a terminator closes the header block `h`. */
  function ExtractFramed(h: bytes, have: nat): Extraction {
    if |h| > MAX_HEADER_BYTES then Fail(TooLarge)
    else match InspectFraming(h)
      case Err(e) => Fail(MapFramingError(e))
      case Ok(n) =>
        if n > MAX_MESSAGE_BYTES - |h| then Fail(TooLarge)
        else if have < |h| + n then NeedMore
        else Ready(|h| + n)
  }

  /** `try_extract_length`: is there a complete message at the front of the buffer? */
  function Extract(buf: bytes): Extraction {
    if FirstTerm(buf) < 0 then
      if |buf| >= MAX_HEADER_BYTES then Fail(TooLarge) else NeedMore
    else ExtractFramed(HeaderPart(buf), |buf|)
  }

  lemma {:induction false} ScanBound(s: bytes, seen: Option<nat>, chunked: bool)
    requires seen.Some? ==> seen.value <= MAX_BODY_SIZE
    requires FrameScan(s, seen, chunked).Ok?
    ensures FrameScan(s, seen, chunked).value <= MAX_BODY_SIZE
    decreases |s|
  {
    hide SplitField, SaysChunked, EqualCI, CStr, IndexOf;
    if s != [] && !(CRLF <= s) {
      var Line(text, rest) := CutLine(s);
      var step := ScanLine(text, seen, chunked);
      ScanBound(rest, step.value.0, step.value.1);
    }
  }

  lemma FramingBound(h: bytes)
    requires InspectFraming(h).Ok?
    ensures InspectFraming(h).value <= MAX_BODY_SIZE
  {
    ScanBound(CutLine(h).rest, None, false);
  }

  /** A declared length never overflows the message limit once the header block fits its own:
      the overflow exits of the reader are dead. */
  lemma NoBodyOverflow(h: bytes)
    requires |h| <= MAX_HEADER_BYTES && InspectFraming(h).Ok?
    ensures InspectFraming(h).value <= MAX_MESSAGE_BYTES - |h|
  {
    FramingBound(h);
  }

  lemma ReadyBounds(buf: bytes)
    requires Extract(buf).Ready?
    ensures 4 <= Extract(buf).length <= |buf| && Extract(buf).length <= MAX_MESSAGE_BYTES
  {
    hide InspectFraming;
  }

  /** Once the header block is there, the length it declares is exactly what completes the message. */
  lemma NeedIsExact(p: bytes, s: bytes, need: nat)
    requires p <= s && Extract(p) == NeedMore && FirstTerm(p) >= 0
    requires |HeaderPart(p)| <= need && InspectFraming(HeaderPart(p)) == Ok(need - |HeaderPart(p)|)
    ensures Extract(s) == if |s| < need then NeedMore else Ready(need)
  {
    hide InspectFraming, FirstTerm;
    HeaderPartPrefix(p, s);
  }

  // -------------------------------------------------------------- stability

  /** Once the front of the buffer has a verdict, later bytes cannot change it. */
  lemma ExtractStable(p: bytes, s: bytes)
    requires p <= s && Extract(p) != NeedMore
    ensures Extract(s) == Extract(p)
  {
    hide InspectFraming, FirstTerm;
    if FirstTerm(p) >= 0 {
      HeaderPartPrefix(p, s);
    } else {
      FirstTermPrefix(p, s);
    }
  }

  // ------------------------------------------------------------ whole streams

  datatype End = Closed | Refused(why: ParseError)
  datatype Cutting = Cutting(messages: seq<bytes>, end: End)

  function Prepend(m: bytes, c: Cutting): Cutting { c.(messages := [m] + c.messages) }

  /** The messages of a stream that ends in EOF, and how it stops. */
  function FrameStream(s: bytes): Cutting
    decreases |s|
  {
    match Extract(s)
    case NeedMore => Cutting([], Closed)
    case Fail(e) => Cutting([], Refused(e))
    case Ready(n) =>
      ReadyBounds(s);
      Prepend(s[..n], FrameStream(s[n..]))
  }

  /** The reader run piece by piece: extract what is ready, otherwise take the next recv result. */
  function RunReader(buf: bytes, pieces: seq<bytes>): Cutting
    decreases |pieces|, |buf|
  {
    match Extract(buf)
    case Fail(e) => Cutting([], Refused(e))
    case Ready(n) =>
      ReadyBounds(buf);
      Prepend(buf[..n], RunReader(buf[n..], pieces))
    case NeedMore =>
      if pieces == [] then Cutting([], Closed)
      else RunReader(buf + pieces[0], pieces[1..])
  }

  function Flatten(pieces: seq<bytes>): bytes {
    if pieces == [] then [] else pieces[0] + Flatten(pieces[1..])
  }

  /** Fragmentation independence: for every split of a stream into recv results ending in EOF,
      the reader returns what a function of the whole stream says, and nothing else. */
  lemma {:induction false} FragmentationIndependence(buf: bytes, pieces: seq<bytes>)
    ensures RunReader(buf, pieces) == FrameStream(buf + Flatten(pieces))
    decreases |pieces|, |buf|
  {
    hide Extract;
    var s := buf + Flatten(pieces);
    match Extract(buf)
    case Fail(e) =>
      ExtractStable(buf, s);
    case Ready(n) =>
      ExtractStable(buf, s);
      ReadyBounds(buf);
      FragmentationIndependence(buf[n..], pieces);
      assert s[n..] == buf[n..] + Flatten(pieces);
      assert s[..n] == buf[..n];
    case NeedMore =>
      if pieces == [] {
        assert s == buf;
      } else {
        FragmentationIndependence(buf + pieces[0], pieces[1..]);
        assert s == (buf + pieces[0]) + Flatten(pieces[1..]);
      }
  }

  /** The messages of a cutting, one after another. */
  lemma {:induction false} CuttingIsPrefix(s: bytes)
    ensures Flatten(FrameStream(s).messages) <= s
    decreases |s|
  {
    hide Extract;
    if Extract(s).Ready? {
      var n := Extract(s).length;
      ReadyBounds(s);
      CuttingIsPrefix(s[n..]);
      var c := FrameStream(s[n..]);
      assert FrameStream(s).messages[1..] == c.messages;
      assert s == s[..n] + s[n..];
    }
  }

  // -------------------------------------------------------- reader and parser

  /** Every message the reader returns passes the parser's terminator, size, framing and length
      checks: only the request line, the syntax of a field or the number of fields is left to fail. */
  lemma ReaderParserContract(s: bytes)
    requires Extract(s).Ready?
    ensures var n := Extract(s).length;
            && 4 <= n <= |s|
            && var d := s[..n];
            && FirstTerm(d) >= 0
            && var h := HeaderPart(d);
            && |h| <= MAX_HEADER_BYTES
            && InspectFraming(h) == Ok(n - |h|)
            && CutLine(h).Line? && AfterRequestLine(h).Some? && Fields(AfterRequestLine(h).value).Some?
            && ParseRequest(d) ==
               match (ParseRequestLine(CutLine(h).text), JudgeFields(BlockFields(h), []))
               case (Err(e), _) => Err(e)
               case (Ok(_), Err(e)) => Err(e)
               case (Ok(rl), Ok(hs)) => Ok(Request(rl, hs, d[|h|..]))
  {
    hide ParseRequest, ParseRequestLine, JudgeFields, Fields, InspectFraming, FirstTerm, CutLine;
    ReadyBounds(s);
    var n := Extract(s).length;
    var d, h := s[..n], HeaderPart(s);
    FirstTermPrefix(d, s);
    HeaderPartPrefix(d, s);
    OnlySyntaxFails(d, h, n - |h|);
  }
}
