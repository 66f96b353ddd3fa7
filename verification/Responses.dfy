/** Responses on the wire, and how a client frames them. */
module Responses {
  import opened Bytes
  import opened Lines
  import opened Framing
  import opened Parser
  import opened Printing

  const SIZE_MAX: nat := 0xFFFF_FFFF_FFFF_FFFF
  const STATUS_LINE_BUFFER: nat := 128
  const LENGTH_LINE_BUFFER: nat := 64
  const SERVER_NAME: bytes := [67, 105, 110, 100, 101, 114, 72, 84, 84, 80, 47, 49, 46, 48]  // CinderHTTP/1.0

  /** A file body is what the descriptor will yield and the size declared for it. */
  datatype Body = NoBody | Memory(data: bytes) | File(content: bytes, size: nat)

  datatype Response = Response(
    status: nat,
    reason: bytes,
    headers: seq<Header>,
    body: Body,
    suppressClose: bool
  )

  function BodyLength(b: Body): nat {
    match b
    case NoBody => 0
    case Memory(data) => |data|
    case File(_, size) => size
  }

  /** The bytes a complete transfer puts on the wire. */
  function BodyBytes(b: Body): bytes {
    match b
    case NoBody => []
    case Memory(data) => data
    case File(content, size) => if size <= |content| then content[..size] else content
  }

  /** The file still holds as many bytes as were declared. */
  predicate Whole(b: Body) { b.File? ==> b.size <= |b.content| }

  // --------------------------------------------------------------- header block

  function StatusText(r: Response): bytes {
    HTTP_1_1 + [SP] + Decimal(r.status) + [SP] + r.reason
  }

  /** The fields the serializer adds by itself. */
  function AutoFields(r: Response): seq<Header> {
    (if CountNamed(r.headers, SERVER) == 0 then [Header(SERVER, SERVER_NAME)] else []) +
    (if CountNamed(r.headers, CONNECTION) == 0 && !r.suppressClose then [Header(CONNECTION, CLOSE)] else []) +
    (if CountNamed(r.headers, CONTENT_LENGTH) == 0
     then [Header(CONTENT_LENGTH, Decimal(BodyLength(r.body)))] else [])
  }

  function AllFields(r: Response): seq<Header> { r.headers + AutoFields(r) }

  /** The header block: status line, fields, blank line. */
  function Head(r: Response): bytes {
    BlockOf(StatusText(r), AllFields(r))
  }

  function Payload(r: Response, omitBody: bool): bytes {
    if omitBody then [] else BodyBytes(r.body)
  }

  /** Everything a complete response puts on the wire. */
  function Wire(r: Response, omitBody: bool): bytes {
    Head(r) + Payload(r, omitBody)
  }

  /** Statuses the handlers use: three digits, and none that forbids a body. */
  predicate GoodStatus(status: nat) { 200 <= status <= 599 && status != 204 && status != 304 }

  /** What handlers and the connection policy may put into a response. */
  predicate WellBuilt(r: Response) {
    && GoodStatus(r.status)
    && Clean(r.reason) && |StatusText(r)| + 2 < STATUS_LINE_BUFFER
    && (forall i :: 0 <= i < |r.headers| ==> WellFormedField(r.headers[i]))
    && CountNamed(r.headers, CONTENT_LENGTH) == 0
    && CountNamed(r.headers, TRANSFER_ENCODING) == 0
    && BodyLength(r.body) <= SIZE_MAX
  }

  // ------------------------------------------------------------ reference client

  datatype Reply = Reply(head: bytes, body: bytes)

  predicate BodylessStatus(status: nat) { status < 200 || status == 204 || status == 304 }

  function StatusOf(text: bytes): Option<nat> {
    if |text| < 12 || !AllDigits(text[9..12]) then None else Some(Value(text[9..12]))
  }

  /** Content-Length as a client reads it: exactly one field, all digits, no Transfer-Encoding. */
  function ClientLength(fs: seq<Header>): Option<nat> {
    if CountNamed(fs, TRANSFER_ENCODING) != 0 || CountNamed(fs, CONTENT_LENGTH) != 1 then None
    else match FirstNamed(fs, CONTENT_LENGTH)
      case None => None
      case Some(v) => if v != [] && AllDigits(v) then Some(Value(v)) else None
  }

  /** How many body bytes follow a header block (section 3.3.3 of RFC 7230, Content-Length case). */
  function ClientBodyLength(h: bytes, headRequest: bool): Option<nat> {
    if CutLine(h).NoLine? || AfterRequestLine(h).None? then None
    else match (StatusOf(CutLine(h).text), Fields(AfterRequestLine(h).value))
      case (Some(status), Some(fs)) =>
        if headRequest || BodylessStatus(status) then Some(0) else ClientLength(fs)
      case _ => None
  }

  function TakeReply(s: bytes, h: bytes, n: nat): Option<(Reply, nat)> {
    if |s| < |h| + n then None else Some((Reply(h, s[|h|..|h| + n]), |h| + n))
  }

  /** One response off the front of a stream: the reply and the number of bytes it took. */
  function DecodeOne(s: bytes, headRequest: bool): Option<(Reply, nat)> {
    if FirstTerm(s) < 0 then None
    else
      var h := HeaderPart(s);
      match ClientBodyLength(h, headRequest)
      case None => None
      case Some(n) => TakeReply(s, h, n)
  }

  // ---------------------------------------------------------------- the fields

  lemma {:induction false} CountAppend(a: seq<Header>, b: seq<Header>, name: bytes)
    ensures CountNamed(a + b, name) == CountNamed(a, name) + CountNamed(b, name)
  {
    if a == [] {
      assert a + b == b;
    } else {
      CountAppend(a[1..], b, name);
      assert (a + b)[1..] == a[1..] + b;
    }
  }

  lemma CountOne(h: Header, name: bytes)
    ensures CountNamed([h], name) == if EqualCI(h.name, name) then 1 else 0
  {
    assert [h][1..] == [];
    assert CountNamed([], name) == 0;
  }

  lemma LiteralNames()
    ensures !EqualCI(SERVER, CONTENT_LENGTH) && !EqualCI(SERVER, TRANSFER_ENCODING) && !EqualCI(SERVER, CONNECTION)
    ensures !EqualCI(CONNECTION, CONTENT_LENGTH) && !EqualCI(CONNECTION, TRANSFER_ENCODING)
    ensures !EqualCI(CONTENT_LENGTH, TRANSFER_ENCODING) && !EqualCI(CONTENT_LENGTH, CONNECTION)
    ensures EqualCI(CONTENT_LENGTH, CONTENT_LENGTH) && EqualCI(CONNECTION, CONNECTION)
  {}

  lemma FirstNamedAppend(a: seq<Header>, b: seq<Header>, name: bytes)
    requires CountNamed(a, name) == 0
    ensures FirstNamed(a + b, name) == FirstNamed(b, name)
  {
    hide EqualCI, FirstNamed, CountNamed;
    assert FirstNamed(a, name).None?;
    CountAppend(a, b, name);
    if FirstNamed(b, name).Some? {
      var i := FirstNamedWhere(b, name);
      FirstNamedAt(b, name, i);
      var c, k := a + b, |a| + i;
      assert forall j :: 0 <= j < |a| ==> c[j] == a[j];
      assert forall j :: |a| <= j < |c| ==> c[j] == b[j - |a|];
      FirstNamedAt(c, name, k);
    }
  }

  lemma FieldGood(name: bytes, value: bytes)
    requires GoodName(name) && COLON !in name && LF !in name && Clean(value) && Trimmed(value)
    ensures WellFormedField(Header(name, value))
  {}

  lemma ServerFieldGood()
    ensures WellFormedField(Header(SERVER, SERVER_NAME))
  {
    hide WellFormedField;
    FieldGood(SERVER, SERVER_NAME);
  }

  lemma ConnectionFieldGood(value: bytes)
    requires Clean(value) && Trimmed(value)
    ensures WellFormedField(Header(CONNECTION, value))
  {
    hide WellFormedField, Clean, Trimmed;
    FieldGood(CONNECTION, value);
  }

  lemma LengthFieldGood(n: nat)
    ensures WellFormedField(Header(CONTENT_LENGTH, Decimal(n)))
  {
    hide Decimal, WellFormedField, Trimmed, AllDigits;
    DigitsAreTrimmed(Decimal(n));
    FieldGood(CONTENT_LENGTH, Decimal(n));
  }

  lemma CloseIsClean()
    ensures Clean(CLOSE) && Trimmed(CLOSE) && Clean(KEEP_ALIVE) && Trimmed(KEEP_ALIVE)
  {}

  lemma AllFieldsGood(r: Response)
    requires WellBuilt(r)
    ensures forall i :: 0 <= i < |AllFields(r)| ==> WellFormedField(AllFields(r)[i])
  {
    hide WellFormedField, Decimal, CountNamed;
    ServerFieldGood();
    CloseIsClean();
    ConnectionFieldGood(CLOSE);
    LengthFieldGood(BodyLength(r.body));
  }

  lemma FirstOfOne(h: Header, name: bytes)
    requires EqualCI(h.name, name)
    ensures FirstNamed([h], name) == Some(h.value)
  {}

  lemma CountNone(name: bytes)
    ensures CountNamed([], name) == 0
  {}

  lemma AutoCount(a: seq<Header>, b: seq<Header>, h: Header, name: bytes)
    requires a == [] || a == [Header(SERVER, SERVER_NAME)]
    requires b == [] || b == [Header(CONNECTION, CLOSE)]
    ensures CountNamed(a + b, name) ==
            (if a != [] && EqualCI(SERVER, name) then 1 else 0) +
            (if b != [] && EqualCI(CONNECTION, name) then 1 else 0)
    ensures CountNamed(a + b + [h], name) == CountNamed(a + b, name) + (if EqualCI(h.name, name) then 1 else 0)
  {
    hide EqualCI, CountNamed;
    CountAppend(a, b, name);
    CountAppend(a + b, [h], name);
    CountOne(h, name);
    CountOne(Header(SERVER, SERVER_NAME), name);
    CountOne(Header(CONNECTION, CLOSE), name);
    CountNone(name);
  }

  /** How often a name occurs among the added fields. */
  lemma AutoCounts(r: Response)
    requires CountNamed(r.headers, CONTENT_LENGTH) == 0
    ensures CountNamed(AutoFields(r), CONTENT_LENGTH) == 1
    ensures CountNamed(AutoFields(r), TRANSFER_ENCODING) == 0
    ensures FirstNamed(AutoFields(r), CONTENT_LENGTH) == Some(Decimal(BodyLength(r.body)))
    ensures CountNamed(AutoFields(r), CONNECTION) ==
            if CountNamed(r.headers, CONNECTION) == 0 && !r.suppressClose then 1 else 0
  {
    hide EqualCI, Decimal, CountNamed, FirstNamed;
    LiteralNames();
    var a := if CountNamed(r.headers, SERVER) == 0 then [Header(SERVER, SERVER_NAME)] else [];
    var b := if CountNamed(r.headers, CONNECTION) == 0 && !r.suppressClose then [Header(CONNECTION, CLOSE)] else [];
    var h := Header(CONTENT_LENGTH, Decimal(BodyLength(r.body)));
    assert AutoFields(r) == a + b + [h];
    AutoCount(a, b, h, CONTENT_LENGTH);
    AutoCount(a, b, h, TRANSFER_ENCODING);
    AutoCount(a, b, h, CONNECTION);
    FirstNamedAppend(a + b, [h], CONTENT_LENGTH);
    FirstOfOne(h, CONTENT_LENGTH);
  }

  /** Exactly one Content-Length appears, and its digits read back to the body length. */
  lemma OneContentLength(r: Response)
    requires WellBuilt(r)
    ensures CountNamed(AllFields(r), CONTENT_LENGTH) == 1 && CountNamed(AllFields(r), TRANSFER_ENCODING) == 0
    ensures ClientLength(AllFields(r)) == Some(BodyLength(r.body))
  {
    hide CountNamed, FirstNamed, AutoFields, Decimal, Value;
    AutoCounts(r);
    CountAppend(r.headers, AutoFields(r), CONTENT_LENGTH);
    CountAppend(r.headers, AutoFields(r), TRANSFER_ENCODING);
    FirstNamedAppend(r.headers, AutoFields(r), CONTENT_LENGTH);
    DecimalValue(BodyLength(r.body));
  }

  // ------------------------------------------------------------ the header block

  lemma ThreeDigits(n: nat)
    requires 100 <= n <= 999
    ensures |Decimal(n)| == 3
  {
    assert |Decimal(n / 100)| == 1;
    assert |Decimal(n / 10)| == 2;
  }

  lemma StatusReadBack(r: Response)
    requires 100 <= r.status <= 999
    ensures StatusOf(StatusText(r)) == Some(r.status)
  {
    hide Decimal, Value;
    ThreeDigits(r.status);
    DecimalValue(r.status);
    assert StatusText(r)[9..12] == Decimal(r.status);
  }

  lemma StatusTextGood(r: Response)
    requires LF !in r.reason
    ensures StatusText(r) != [] && LF !in StatusText(r)
  {
    hide Decimal;
    DigitsAreTrimmed(Decimal(r.status));
    assert LF !in HTTP_1_1;
  }

  /** Serializer exactness: whatever follows, the first CRLFCRLF is the end of the header block, and
      the block is cut into the status line and exactly the response's fields. */
  lemma HeadFound(r: Response, rest: bytes)
    requires WellBuilt(r)
    ensures |Head(r)| >= 4 && FirstTerm(Head(r) + rest) == |Head(r)| - 4
    ensures HeaderPart(Head(r) + rest) == Head(r)
    ensures CutLine(Head(r)).Line? && CutLine(Head(r)).text == StatusText(r)
    ensures AfterRequestLine(Head(r)).Some? && Fields(AfterRequestLine(Head(r)).value) == Some(AllFields(r))
  {
    hide BlockOf, FirstTerm, HeaderPart, CutLine, Fields, AfterRequestLine, StatusText, AllFields, CountNamed;
    hide WellFormedField;
    AllFieldsGood(r);
    StatusTextGood(r);
    BlockFound(StatusText(r), AllFields(r), rest);
  }

  lemma HeadLength(r: Response, headRequest: bool)
    requires WellBuilt(r)
    ensures ClientBodyLength(Head(r), headRequest) == Some(if headRequest then 0 else BodyLength(r.body))
  {
    hide Head, CutLine, Fields, AfterRequestLine, StatusText, AllFields, CountNamed, ClientLength, StatusOf;
    hide WellFormedField;
    HeadFound(r, []);
    StatusReadBack(r);
    OneContentLength(r);
  }

  datatype StatusLine = StatusLine(version: bytes, status: nat, reason: bytes)

  /** A status line as a client takes it apart: up to the first space, up to the second, and the rest. */
  function ReadStatusLine(text: bytes): Option<StatusLine> {
    var a := IndexOf(text, SP);
    if a < 0 then None
    else
      var after := text[a + 1..];
      var b := IndexOf(after, SP);
      if b <= 0 || !AllDigits(after[..b]) then None
      else Some(StatusLine(text[..a], Value(after[..b]), after[b + 1..]))
  }

  lemma ReadWords(version: bytes, digits: bytes, reason: bytes)
    requires SP !in version && SP !in digits && AllDigits(digits) && digits != []
    ensures ReadStatusLine(version + [SP] + (digits + [SP] + reason)) ==
            Some(StatusLine(version, Value(digits), reason))
  {
    hide IndexOf, Value, AllDigits;
    WordCut(version, SP, digits + [SP] + reason);
    WordCut(digits, SP, reason);
  }

  lemma VersionIsWord()
    ensures SP !in HTTP_1_1
  {}

  /** The status line reads back to the version, the status and the reason of the response. */
  lemma StatusLineBack(r: Response)
    ensures ReadStatusLine(StatusText(r)) == Some(StatusLine(HTTP_1_1, r.status, r.reason))
  {
    hide ReadStatusLine, Decimal, Value;
    VersionIsWord();
    var digits := Decimal(r.status);
    DecimalValue(r.status);
    ReadWords(HTTP_1_1, digits, r.reason);
    assert StatusText(r) == HTTP_1_1 + [SP] + (digits + [SP] + r.reason);
  }

  lemma OwnName()
    ensures EqualCI(SERVER, SERVER) && !EqualCI(CONNECTION, SERVER) && !EqualCI(CONTENT_LENGTH, SERVER)
  {}

  lemma AutoServer(r: Response)
    ensures CountNamed(AutoFields(r), SERVER) == if CountNamed(r.headers, SERVER) == 0 then 1 else 0
    ensures CountNamed(r.headers, SERVER) == 0 ==> FirstNamed(AutoFields(r), SERVER) == Some(SERVER_NAME)
  {
    hide EqualCI, Decimal, CountNamed, FirstNamed;
    OwnName();
    var a := if CountNamed(r.headers, SERVER) == 0 then [Header(SERVER, SERVER_NAME)] else [];
    var b := if CountNamed(r.headers, CONNECTION) == 0 && !r.suppressClose then [Header(CONNECTION, CLOSE)] else [];
    var h := Header(CONTENT_LENGTH, Decimal(BodyLength(r.body)));
    AutoCount(a, b, h, SERVER);
    assert AutoFields(r) == if CountNamed(r.headers, CONTENT_LENGTH) == 0 then a + b + [h] else a + b;
    if a != [] {
      FirstNamedAt(AutoFields(r), SERVER, 0);
    }
  }

  /** A response names its server, its own way or by default, and no name is added twice. Its own fields
      come first. */
  lemma ServerNamed(r: Response)
    ensures FirstNamed(AllFields(r), SERVER) ==
            if CountNamed(r.headers, SERVER) == 0 then Some(SERVER_NAME) else FirstNamed(r.headers, SERVER)
    ensures CountNamed(AllFields(r), SERVER) ==
            if CountNamed(r.headers, SERVER) == 0 then 1 else CountNamed(r.headers, SERVER)
    ensures r.headers <= AllFields(r)
  {
    hide EqualCI, Decimal, CountNamed, FirstNamed, BodyLength;
    var own := r.headers;
    CountAppend(own, AutoFields(r), SERVER);
    AutoServer(r);
    if CountNamed(own, SERVER) == 0 {
      FirstNamedAppend(own, AutoFields(r), SERVER);
    } else {
      var i := FirstNamedWhere(own, SERVER);
      FirstNamedAt(own, SERVER, i);
      FirstNamedAt(AllFields(r), SERVER, i);
    }
  }

  // ---------------------------------------------------------- decoding a stream

  lemma PayloadLength(r: Response, headRequest: bool)
    requires headRequest || Whole(r.body)
    ensures |Payload(r, headRequest)| == if headRequest then 0 else BodyLength(r.body)
  {}

  lemma TakePayload(h: bytes, payload: bytes, rest: bytes)
    ensures (h + payload) + rest == h + (payload + rest)
    ensures TakeReply((h + payload) + rest, h, |payload|) == Some((Reply(h, payload), |h + payload|))
  {
    var s := (h + payload) + rest;
    assert s == h + (payload + rest);
    assert s[|h|..|h| + |payload|] == payload;
  }

  /** A complete response, whatever follows it, is decoded to its header block and its body. */
  lemma WireDecodes(r: Response, headRequest: bool, rest: bytes)
    requires WellBuilt(r) && (headRequest || Whole(r.body))
    ensures DecodeOne(Wire(r, headRequest) + rest, headRequest) ==
            Some((Reply(Head(r), Payload(r, headRequest)), |Wire(r, headRequest)|))
  {
    hide WellBuilt, Head, FirstTerm, HeaderPart, ClientBodyLength, TakeReply, Payload;
    var h, payload := Head(r), Payload(r, headRequest);
    HeadFound(r, payload + rest);
    HeadLength(r, headRequest);
    PayloadLength(r, headRequest);
    TakePayload(h, payload, rest);
  }

  /** What is decoded does not depend on bytes that arrive later. */
  lemma DecodeStable(p: bytes, s: bytes, headRequest: bool)
    requires p <= s && DecodeOne(p, headRequest).Some?
    ensures DecodeOne(s, headRequest) == DecodeOne(p, headRequest)
  {
    hide FirstTerm, ClientBodyLength, HeaderPart;
    HeaderPartPrefix(p, s);
    var h := HeaderPart(p);
    var n := ClientBodyLength(h, headRequest).value;
    assert s[|h|..|h| + n] == p[|h|..|h| + n];
  }

  /** The size of a response as its own Content-Length declares it. */
  function DeclaredSize(r: Response, headRequest: bool): nat {
    |Head(r)| + (if headRequest then 0 else BodyLength(r.body))
  }

  /** A response cut short, by a failed send or a file that shrank, is never taken for a response. */
  lemma TruncationDetected(r: Response, headRequest: bool, k: nat)
    requires WellBuilt(r) && k <= |Wire(r, headRequest)| && k < DeclaredSize(r, headRequest)
    ensures DecodeOne(Wire(r, headRequest)[..k], headRequest) == None
  {
    hide WellBuilt, Head, FirstTerm, ClientBodyLength, HeaderPart, Payload;
    var w := Wire(r, headRequest);
    var p := w[..k];
    HeadFound(r, Payload(r, headRequest));
    HeadLength(r, headRequest);
    FirstTermPrefix(p, w);
    if FirstTerm(p) >= 0 {
      HeaderPartPrefix(p, w);
    }
  }
}
