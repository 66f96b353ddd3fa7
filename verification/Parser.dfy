/** The structured pass of the parser: request line, header fields and body. */
module Parser {
  import opened Bytes
  import opened Lines
  import opened Framing

  const MAX_REQUEST_LINE: nat := 8192
  const MAX_HEADER_BYTES: nat := 32768
  const MAX_HEADERS: nat := 100

  datatype Method = GET | HEAD | POST
  datatype RequestLine = RequestLine(meth: Method, target: bytes, version: bytes)
  datatype Request = Request(line: RequestLine, headers: seq<Header>, body: bytes)

  // -------------------------------------------------------------- request line

  const GET_TOKEN: bytes := [71, 69, 84]
  const HEAD_TOKEN: bytes := [72, 69, 65, 68]
  const POST_TOKEN: bytes := [80, 79, 83, 84]
  const HTTP_SLASH: bytes := [72, 84, 84, 80, 47]

  function MethodToken(m: Method): bytes {
    match m
    case GET => GET_TOKEN
    case HEAD => HEAD_TOKEN
    case POST => POST_TOKEN
  }

  function MethodOf(token: bytes): Option<Method> {
    if token == GET_TOKEN then Some(GET)
    else if token == HEAD_TOKEN then Some(HEAD)
    else if token == POST_TOKEN then Some(POST)
    else None
  }

  /** `is_token_char`: letters, digits and the tchar punctuation of RFC 7230. */
  predicate TokenChar(c: byte) {
    || 65 <= c <= 90 || 97 <= c <= 122 || 48 <= c <= 57
    || c == 33 || 35 <= c <= 39 || c == 42 || c == 43 || c == 45 || c == 46
    || c == 94 || c == 95 || c == 96 || c == 124 || c == 126
  }

  predicate WellFormedToken(s: bytes) {
    s != [] && forall i :: 0 <= i < |s| ==> TokenChar(s[i])
  }

  predicate SupportedVersion(v: bytes) { v == HTTP_1_0 || v == HTTP_1_1 }

  /** Syntactically HTTP-like (`HTTP/` and digits or dots) but not 1.0 or 1.1. */
  predicate HttpLikeVersion(v: bytes) {
    HTTP_SLASH < v && forall i :: 5 <= i < |v| ==> Digit(v[i]) || v[i] == 46
  }

  function JudgeVersion(m: Method, target: bytes, version: bytes): Result<RequestLine, ParseError> {
    if SupportedVersion(version) then Ok(RequestLine(m, target, version))
    else if HttpLikeVersion(version) then Err(UnsupportedVersion)
    else Err(BadRequest)
  }

  function ParseTargetAndVersion(token: bytes, after: bytes): Result<RequestLine, ParseError> {
    var sp := IndexOf(after, SP);
    if sp <= 0 then Err(BadRequest)
    else
      var target, version := after[..sp], after[sp + 1..];
      if version == [] || SP in version || NUL in target || NUL in version then Err(BadRequest)
      else match MethodOf(token)
        case None => Err(UnsupportedMethod)
        case Some(m) => JudgeVersion(m, target, version)
  }

  /** `parse_request_line`: METHOD SP TARGET SP VERSION, three non-empty fields. */
  function ParseRequestLine(line: bytes): Result<RequestLine, ParseError> {
    if line == [] then Err(BadRequest)
    else if |line| > MAX_REQUEST_LINE then Err(TooLarge)
    else
      var sp := IndexOf(line, SP);
      if sp <= 0 || !WellFormedToken(line[..sp]) then Err(BadRequest)
      else ParseTargetAndVersion(line[..sp], line[sp + 1..])
  }

  // ------------------------------------------------------------- header lines

  predicate GoodName(name: bytes) { name != [] && SP !in name && TAB !in name && NUL !in name }

  predicate GoodField(h: Header) { GoodName(h.name) && NUL !in h.value }

  /** `parse_header_line` followed by `append_header`. */
  function TakeField(acc: seq<Header>, field: Option<Header>): Result<seq<Header>, ParseError> {
    if field.None? || !GoodField(field.value) then Err(BadRequest)
    else if |acc| >= MAX_HEADERS then Err(TooManyHeaders)
    else Ok(acc + [field.value])
  }

  /** The line loop of `http_parse_request`. */
  function HeaderLoop(s: bytes, acc: seq<Header>): Result<seq<Header>, ParseError>
    decreases |s|
  {
    if s == [] then Ok(acc)
    else match CutLine(s)
      case NoLine => Err(BadRequest)
      case Line(text, rest) =>
        match TakeField(acc, SplitField(text))
        case Err(e) => Err(e)
        case Ok(acc') => HeaderLoop(rest, acc')
  }

  /** Request line and headers of a header block that stops before the blank line. */
  function Structured(head: bytes): Result<(RequestLine, seq<Header>), ParseError> {
    match CutLine(head)
    case NoLine => Err(BadRequest)
    case Line(text, rest) =>
      match ParseRequestLine(text)
      case Err(e) => Err(e)
      case Ok(rl) =>
        match HeaderLoop(rest, [])
        case Err(e) => Err(e)
        case Ok(hs) => Ok((rl, hs))
  }

  /** The second look at Content-Length and Transfer-Encoding, over the stored fields. */
  function Revalidate(hs: seq<Header>, expected: nat): Result<nat, ParseError> {
    if FirstNamed(hs, TRANSFER_ENCODING).Some? then Err(UnsupportedTransferEncoding)
    else match FirstNamed(hs, CONTENT_LENGTH)
      case None => if expected == 0 then Ok(0) else Err(BadRequest)
      case Some(v) =>
        if CountNamed(hs, CONTENT_LENGTH) > 1 then Err(InvalidContentLength)
        else match ContentLength(v)
          case Err(e) => Err(e)
          case Ok(n) => if n == expected then Ok(n) else Err(BadRequest)
  }

  // ------------------------------------------------------------------- request

  /** The bytes of a message through its CRLFCRLF. */
  function HeaderPart(d: bytes): bytes
    requires FirstTerm(d) >= 0
  {
    d[..FirstTerm(d) + 4]
  }

  lemma HeaderPartPrefix(p: bytes, s: bytes)
    requires p <= s && FirstTerm(p) >= 0
    ensures FirstTerm(s) == FirstTerm(p) && HeaderPart(s) == HeaderPart(p)
  {
    FirstTermPrefix(p, s);
  }

  function ParseFramed(h: bytes, body: bytes, n: nat): Result<Request, ParseError>
    requires |h| >= 2
  {
    match Structured(h[..|h| - 2])
    case Err(e) => Err(e)
    case Ok((rl, hs)) =>
      match Revalidate(hs, n)
      case Err(e) => Err(e)
      case Ok(_) => Ok(Request(rl, hs, body))
  }

  function ParseSplit(h: bytes, d: bytes): Result<Request, ParseError>
    requires 4 <= |h| <= |d|
  {
    if |h| > MAX_HEADER_BYTES then Err(TooLarge)
    else match InspectFraming(h)
      case Err(e) => Err(e)
      case Ok(n) => if |d| != |h| + n then Err(BadRequest) else ParseFramed(h, d[|h|..], n)
  }

  /** `http_parse_request`, on exactly one framed message. */
  function ParseRequest(d: bytes): Result<Request, ParseError> {
    if FirstTerm(d) < 0 then Err(BadRequest) else ParseSplit(HeaderPart(d), d)
  }

  // --------------------------------------------------------- two-pass agreement

  /** The fields of a block judged one by one, without cutting lines again. */
  function JudgeFields(raw: seq<Header>, acc: seq<Header>): Result<seq<Header>, ParseError> {
    if raw == [] then Ok(acc)
    else match TakeField(acc, Some(raw[0]))
      case Err(e) => Err(e)
      case Ok(acc') => JudgeFields(raw[1..], acc')
  }

  lemma {:induction false} HeaderLoopJudges(s: bytes, acc: seq<Header>)
    ensures Fields(s).Some? ==> HeaderLoop(s, acc) == JudgeFields(Fields(s).value, acc)
    ensures Fields(s).None? ==> HeaderLoop(s, acc).Err?
    decreases |s|
  {
    if s != [] {
      match CutLine(s)
      case NoLine =>
      case Line(text, rest) =>
        var step := TakeField(acc, SplitField(text));
        if step.Ok? {
          HeaderLoopJudges(rest, step.value);
        }
        if Fields(s).Some? {
          assert Fields(s).value[1..] == Fields(rest).value;
        }
    }
  }

  /** Judging accepts a list of fields unchanged: all of them good and few enough. */
  lemma {:induction false} JudgeFieldsIs(raw: seq<Header>, acc: seq<Header>)
    requires |acc| <= MAX_HEADERS
    ensures JudgeFields(raw, acc).Ok? <==>
            |acc| + |raw| <= MAX_HEADERS && forall i :: 0 <= i < |raw| ==> GoodField(raw[i])
    ensures JudgeFields(raw, acc).Ok? ==> JudgeFields(raw, acc).value == acc + raw
    decreases |raw|
  {
    if raw != [] {
      assert raw == [raw[0]] + raw[1..];
      if GoodField(raw[0]) && |acc| < MAX_HEADERS {
        JudgeFieldsIs(raw[1..], acc + [raw[0]]);
        assert acc + [raw[0]] + raw[1..] == acc + raw;
      }
    }
  }

  /** Both passes cut the same request line and the same block of header lines. */
  lemma SameLines(h: bytes)
    requires |h| >= 4 && FirstTerm(h) == |h| - 4
    ensures CutLine(h).NoLine? ==> CutLine(h[..|h| - 2]).NoLine?
    ensures CutLine(h).Line? ==> AfterRequestLine(h).Some?
    ensures CutLine(h).Line? ==> CutLine(h[..|h| - 2]) == Line(CutLine(h).text, AfterRequestLine(h).value)
  {
    var head := h[..|h| - 2];
    assert h == head + CRLF;
    assert head[|head| - 1] == LF;
    CutLineExtends(head, CRLF);
    if CutLine(h).Line? {
      BlockOfHeader(h);
      var rest := CutLine(head).rest;
      assert (rest + CRLF)[..|rest|] == rest;
    }
  }

  lemma SeenIsGood(hs: seq<Header>)
    requires forall i :: 0 <= i < |hs| ==> GoodField(hs[i])
    ensures SeenAll(hs) == hs
  {}

  /** Whenever the framing scan and the structured line loop both succeed, they saw the same
      fields, and the second look at Content-Length and Transfer-Encoding never rejects. */
  lemma TwoPassAgreement(h: bytes, n: nat)
    requires |h| >= 4 && FirstTerm(h) == |h| - 4
    requires InspectFraming(h) == Ok(n)
    requires Structured(h[..|h| - 2]).Ok?
    ensures AfterRequestLine(h).Some?
    ensures Fields(AfterRequestLine(h).value) == Some(Structured(h[..|h| - 2]).value.1)
    ensures Declares(Structured(h[..|h| - 2]).value.1, n)
    ensures Revalidate(Structured(h[..|h| - 2]).value.1, n) == Ok(n)
  {
    FramingMeaning(h, n);
    SameLines(h);
    var s := AfterRequestLine(h).value;
    HeaderLoopJudges(s, []);
    var raw := Fields(s).value;
    JudgeFieldsIs(raw, []);
    assert [] + raw == raw;
    SeenIsGood(raw);
  }

  /** The fields of a header block whose framing is sound. */
  ghost function BlockFields(h: bytes): seq<Header>
    requires AfterRequestLine(h).Some? && Fields(AfterRequestLine(h).value).Some?
  {
    Fields(AfterRequestLine(h).value).value
  }

  /** On a sound block the structured pass never fails to cut a line. */
  lemma StructuredJudges(h: bytes, n: nat)
    requires |h| >= 4 && FirstTerm(h) == |h| - 4
    requires InspectFraming(h) == Ok(n)
    ensures CutLine(h).Line? && AfterRequestLine(h).Some? && Fields(AfterRequestLine(h).value).Some?
    ensures Structured(h[..|h| - 2]) ==
            match (ParseRequestLine(CutLine(h).text), JudgeFields(BlockFields(h), []))
            case (Err(e), _) => Err(e)
            case (Ok(_), Err(e)) => Err(e)
            case (Ok(rl), Ok(hs)) => Ok((rl, hs))
  {
    FramingMeaning(h, n);
    SameLines(h);
    HeaderLoopJudges(AfterRequestLine(h).value, []);
  }

  lemma FramedJudges(h: bytes, body: bytes, n: nat)
    requires |h| >= 4 && FirstTerm(h) == |h| - 4
    requires InspectFraming(h) == Ok(n)
    ensures CutLine(h).Line? && AfterRequestLine(h).Some? && Fields(AfterRequestLine(h).value).Some?
    ensures ParseFramed(h, body, n) ==
            match (ParseRequestLine(CutLine(h).text), JudgeFields(BlockFields(h), []))
            case (Err(e), _) => Err(e)
            case (Ok(_), Err(e)) => Err(e)
            case (Ok(rl), Ok(hs)) => Ok(Request(rl, hs, body))
  {
    StructuredJudges(h, n);
    var r := Structured(h[..|h| - 2]);
    if r.Ok? {
      TwoPassAgreement(h, n);
    }
  }

  /** On a message whose framing is sound, only the request line, the syntax of a field or the
      number of fields can make parsing fail. */
  lemma OnlySyntaxFails(d: bytes, h: bytes, n: nat)
    requires FirstTerm(d) >= 0 && h == HeaderPart(d) && |h| <= MAX_HEADER_BYTES
    requires InspectFraming(h) == Ok(n) && |d| == |h| + n
    ensures CutLine(h).Line? && AfterRequestLine(h).Some? && Fields(AfterRequestLine(h).value).Some?
    ensures ParseRequest(d) ==
            match (ParseRequestLine(CutLine(h).text), JudgeFields(BlockFields(h), []))
            case (Err(e), _) => Err(e)
            case (Ok(_), Err(e)) => Err(e)
            case (Ok(rl), Ok(hs)) => Ok(Request(rl, hs, d[|h|..]))
  {
    hide ParseFramed, InspectFraming, FirstTerm, CutLine, AfterRequestLine, Fields, JudgeFields, ParseRequestLine;
    FirstTermPrefix(h, d);
    FramedJudges(h, d[|h|..], n);
  }
}
