/** The framing pass of the parser: how long is the message whose header block this is? */
module Framing {
  import opened Bytes
  import opened Lines

  const MAX_BODY_SIZE: nat := 1024 * 1024
  const ULLONG_MAX: nat := 0xFFFF_FFFF_FFFF_FFFF

  datatype ParseError =
    | BadRequest
    | UnsupportedMethod
    | UnsupportedVersion
    | TooLarge
    | TooManyHeaders
    | InvalidContentLength
    | UnsupportedTransferEncoding

  type Length = Result<nat, ParseError>

  // ------------------------------------------------------ Content-Length value

  /** The meaning of a Content-Length value: a digit string within the body limit. */
  function ContentLength(v: bytes): (r: Length)
    ensures r.Ok? <==> v != [] && AllDigits(v) && Value(v) <= MAX_BODY_SIZE
    ensures r.Ok? ==> r.value == Value(v)
    ensures r == Err(TooLarge) <==> v != [] && AllDigits(v) && MAX_BODY_SIZE < Value(v) <= ULLONG_MAX
    ensures r.Err? ==> r.error.TooLarge? || r.error.InvalidContentLength?
  {
    if v == [] || !AllDigits(v) || Value(v) > ULLONG_MAX then Err(InvalidContentLength)
    else if Value(v) > MAX_BODY_SIZE then Err(TooLarge)
    else Ok(Value(v))
  }

  /** `http_parse_content_length_value`, on the C string held in `buffer`. */
  method ParseContentLengthValue(buffer: bytes) returns (r: Length)
    ensures r == ContentLength(CStr(buffer))
  {
    var v := CStr(buffer);
    if v == [] {
      return Err(InvalidContentLength);
    }
    var p := 0;
    while p < |v|
      invariant 0 <= p <= |v| && AllDigits(v[..p])
    {
      if !Digit(v[p]) {
        return Err(InvalidContentLength);
      }
      p := p + 1;
      assert v[..p] == v[..p - 1] + [v[p - 1]];
    }
    assert v[..p] == v;
    var parsed := Value(v);
    if parsed > ULLONG_MAX {
      return Err(InvalidContentLength);
    }
    if parsed > MAX_BODY_SIZE {
      return Err(TooLarge);
    }
    return Ok(parsed);
  }

  // ------------------------------------------------------------- header scan

  predicate SaysChunked(value: bytes) {
    EqualCI(value, CHUNKED) || Contains(value, CHUNKED)
  }

  function Conclude(seen: Option<nat>, chunked: bool): Length {
    if chunked then Err(UnsupportedTransferEncoding)
    else Ok(if seen.Some? then seen.value else 0)
  }

  /** What one field does to the scan: a rejection, or the new (length, chunked) pair. */
  function ScanField(h: Header, seen: Option<nat>, chunked: bool): Result<(Option<nat>, bool), ParseError> {
    if EqualCI(CStr(h.name), TRANSFER_ENCODING) then
      if SaysChunked(CStr(h.value)) then Ok((seen, true)) else Err(UnsupportedTransferEncoding)
    else if EqualCI(CStr(h.name), CONTENT_LENGTH) then
      match ContentLength(CStr(h.value))
      case Err(e) => Err(e)
      case Ok(n) => if seen.Some? then Err(InvalidContentLength) else Ok((Some(n), chunked))
    else Ok((seen, chunked))
  }

  /** One line of the scan. */
  function ScanLine(text: bytes, seen: Option<nat>, chunked: bool): Result<(Option<nat>, bool), ParseError> {
    match SplitField(text)
    case None => Err(BadRequest)
    case Some(h) => ScanField(h, seen, chunked)
  }

  /** The scan over the lines that follow the request line. */
  function FrameScan(s: bytes, seen: Option<nat>, chunked: bool): Length
    decreases |s|
  {
    if s == [] || CRLF <= s then Conclude(seen, chunked)
    else match CutLine(s)
      case NoLine => Err(BadRequest)
      case Line(text, rest) =>
        match ScanLine(text, seen, chunked)
        case Err(e) => Err(e)
        case Ok((seen', chunked')) => FrameScan(rest, seen', chunked')
  }

  predicate EndsBlank(h: bytes) { TermAt(h, |h| - 4) }

  function InspectFraming(h: bytes): Length {
    if !EndsBlank(h) then Err(BadRequest)
    else match CutLine(h)
      case NoLine => Err(BadRequest)
      case Line(_, rest) => FrameScan(rest, None, false)
  }

  /** Cutting a line at a cursor, in index arithmetic. */
  lemma CutAt(data: bytes, cursor: nat, len: int, next: int)
    requires cursor <= |data| && len == IndexOf(data[cursor..], LF) && next == cursor + len + 1
    ensures CutLine(data[cursor..]) ==
            if len <= 0 || data[cursor + len - 1] != CR then NoLine
            else Line(data[cursor..cursor + len - 1], data[next..])
  {
    var s := data[cursor..];
    if len > 0 {
      assert s[..len - 1] == data[cursor..cursor + len - 1];
      assert s[len + 1..] == data[next..];
    }
  }

  /** The body of the scan loop, for one line without its CRLF. */
  method InspectLine(line: bytes, seen: Option<nat>, chunked: bool)
    returns (r: Result<(Option<nat>, bool), ParseError>)
    ensures r == ScanLine(line, seen, chunked)
  {
    var field := SplitField(line);
    if field.None? {
      return Err(BadRequest);
    }
    var Header(name, value) := field.value;
    LiteralsAreCStrings();
    var isTE := HeaderNameEqual(name, TRANSFER_ENCODING);
    var isCL := HeaderNameEqual(name, CONTENT_LENGTH);
    if isTE {
      if SaysChunked(CStr(value)) {
        return Ok((seen, true));
      }
      return Err(UnsupportedTransferEncoding);
    } else if isCL {
      var n := ParseContentLengthValue(value);
      if n.Err? {
        return Err(n.error);
      }
      if seen.Some? {
        return Err(InvalidContentLength);
      }
      return Ok((Some(n.value), chunked));
    }
    return Ok((seen, chunked));
  }

  /** Is the cursor on the blank line? */
  lemma BlankAt(data: bytes, cursor: nat)
    requires cursor <= |data|
    ensures CRLF <= data[cursor..] <==> cursor + 1 < |data| && data[cursor] == CR && data[cursor + 1] == LF
  {
    var s := data[cursor..];
    assert |s| >= 2 ==> s[..2] == [data[cursor], data[cursor + 1]];
  }

  /** One turn of the scan, in index arithmetic. */
  lemma FrameScanAt(data: bytes, cursor: nat, len: int, next: int, seen: Option<nat>, chunked: bool)
    requires cursor < |data| && len == IndexOf(data[cursor..], LF) && next == cursor + len + 1
    ensures FrameScan(data[cursor..], seen, chunked) ==
            if cursor + 1 < |data| && data[cursor] == CR && data[cursor + 1] == LF then Conclude(seen, chunked)
            else if len <= 0 || data[cursor + len - 1] != CR then Err(BadRequest)
            else match ScanLine(data[cursor..cursor + len - 1], seen, chunked)
              case Err(e) => Err(e)
              case Ok((seen', chunked')) => FrameScan(data[next..], seen', chunked')
  {
    BlankAt(data, cursor);
    CutAt(data, cursor, len, next);
  }

  /** The cursor loop of `http_inspect_message_framing`, from the first header line on. */
  method ScanHeaderLines(data: bytes, start: nat) returns (r: Length)
    requires start <= |data|
    ensures r == FrameScan(data[start..], None, false)
  {
    var cursor := start;
    var seen: Option<nat> := None;
    var chunked := false;
    ghost var goal := FrameScan(data[start..], None, false);
    while cursor < |data|
      invariant 0 <= cursor <= |data|
      invariant goal == FrameScan(data[cursor..], seen, chunked)
    {
      var len := IndexOf(data[cursor..], LF);
      var next := cursor + len + 1;
      FrameScanAt(data, cursor, len, next, seen, chunked);
      if cursor + 1 < |data| && data[cursor] == CR && data[cursor + 1] == LF {
        return Conclude(seen, chunked);
      }
      if len <= 0 || data[cursor + len - 1] != CR {
        return Err(BadRequest);
      }
      var step := InspectLine(data[cursor..cursor + len - 1], seen, chunked);
      if step.Err? {
        return Err(step.error);
      }
      seen, chunked, cursor := step.value.0, step.value.1, next;
    }
    return Conclude(seen, chunked);
  }

  /** `http_inspect_message_framing`. */
  method InspectMessageFraming(data: bytes) returns (r: Length)
    ensures r == InspectFraming(data)
  {
    hide FrameScan, IndexOf;
    var end := |data|;
    if end < 4 {
      return Err(BadRequest);
    }
    if !(data[end - 4] == CR && data[end - 3] == LF && data[end - 2] == CR && data[end - 1] == LF) {
      return Err(BadRequest);
    }
    var nl := IndexOf(data, LF);
    if nl <= 0 || data[nl - 1] != CR {
      return Err(BadRequest);
    }
    r := ScanHeaderLines(data, nl + 1);
  }

  // ------------------------------------------------------ declarative meaning

  /** The name and value the framing pass sees, cut at the first NUL. */
  function Seen(h: Header): Header { Header(CStr(h.name), CStr(h.value)) }

  function SeenAll(hs: seq<Header>): (r: seq<Header>)
    ensures |r| == |hs| && forall i :: 0 <= i < |hs| ==> r[i] == Seen(hs[i])
  {
    seq(|hs|, i requires 0 <= i < |hs| => Seen(hs[i]))
  }

  /** Section 3.3.3 of RFC 7230, restricted to Content-Length: no Transfer-Encoding,
      at most one Content-Length, and its value (or zero) is the body length. */
  ghost predicate Declares(hs: seq<Header>, n: nat) {
    && CountNamed(hs, TRANSFER_ENCODING) == 0
    && CountNamed(hs, CONTENT_LENGTH) <= 1
    && (match FirstNamed(hs, CONTENT_LENGTH)
        case None => n == 0
        case Some(v) => ContentLength(v) == Ok(n))
  }

  /** The length the rest of a block must declare for a scan that has already seen `seen`. */
  ghost predicate DeclaresAfter(hs: seq<Header>, seen: Option<nat>, n: nat) {
    if seen.Some? then
      && CountNamed(hs, TRANSFER_ENCODING) == 0
      && CountNamed(hs, CONTENT_LENGTH) == 0
      && n == seen.value
    else Declares(hs, n)
  }

  lemma NamesDiffer(a: bytes)
    requires EqualCI(a, TRANSFER_ENCODING)
    ensures !EqualCI(a, CONTENT_LENGTH)
  {}

  /** The scan as a fold over already split fields. */
  function ScanFields(hs: seq<Header>, seen: Option<nat>, chunked: bool): Length {
    if hs == [] then Conclude(seen, chunked)
    else match ScanField(hs[0], seen, chunked)
      case Err(e) => Err(e)
      case Ok((seen', chunked')) => ScanFields(hs[1..], seen', chunked')
  }

  lemma {:induction false} ScanMeaning(hs: seq<Header>, seen: Option<nat>, chunked: bool, n: nat)
    ensures ScanFields(hs, seen, chunked) == Ok(n) <==> !chunked && DeclaresAfter(SeenAll(hs), seen, n)
    decreases |hs|
  {
    if hs != [] {
      var h := Seen(hs[0]);
      assert SeenAll(hs)[1..] == SeenAll(hs[1..]);
      if EqualCI(h.name, TRANSFER_ENCODING) {
        NamesDiffer(h.name);
        ScanMeaning(hs[1..], seen, true, n);
      } else {
        ScanMeaning(hs[1..], seen, chunked, n);
        var m := ContentLength(h.value);
        if EqualCI(h.name, CONTENT_LENGTH) && m.Ok? {
          ScanMeaning(hs[1..], Some(m.value), chunked, n);
        }
      }
    }
  }

  // ---------------------------------------------------------- blocks of lines

  /** `s` holds the complete, non-empty lines between the request line and the blank line. */
  ghost predicate Block(s: bytes) {
    || s == []
    || (&& |s| >= 2 && s[|s| - 2] == CR && s[|s| - 1] == LF
        && !(s[0] == CR && s[1] == LF)
        && forall i :: !TermAt(s, i))
  }

  lemma BlockStep(s: bytes)
    requires Block(s) && s != []
    ensures LF in s && !(CRLF <= s + CRLF)
    ensures CutLine(s).Line? ==> CutLine(s).text != [] && Block(CutLine(s).rest)
  {
    BlankAt(s + CRLF, 0);
    assert (s + CRLF)[0..] == s + CRLF;
    var nl := IndexOf(s, LF);
    if CutLine(s).Line? {
      var rest := s[nl + 1..];
      assert forall i :: TermAt(rest, i) ==> TermAt(s, i + nl + 1);
      assert !TermAt(s, nl - 1);
    }
  }

  /** The cursor scan of a block is the fold over its fields. */
  lemma {:induction false} ScanBlock(s: bytes, seen: Option<nat>, chunked: bool)
    requires Block(s)
    ensures Fields(s).Some? ==> FrameScan(s + CRLF, seen, chunked) == ScanFields(Fields(s).value, seen, chunked)
    ensures Fields(s).None? ==> FrameScan(s + CRLF, seen, chunked).Err?
    decreases |s|
  {
    hide ScanField, SplitField;
    if s == [] {
      assert CRLF <= s + CRLF;
    } else {
      BlockStep(s);
      CutLineExtends(s, CRLF);
      match CutLine(s)
      case NoLine =>
      case Line(text, rest) =>
        var step := ScanLine(text, seen, chunked);
        if step.Ok? {
          ScanBlock(rest, step.value.0, step.value.1);
        }
        if Fields(s).Some? {
          assert Fields(s).value[1..] == Fields(rest).value;
        }
    }
  }

  /** The lines a header block holds after its request line, without the blank line. */
  function AfterRequestLine(h: bytes): (s: Option<bytes>)
  {
    match CutLine(h)
    case NoLine => None
    case Line(_, rest) => if |rest| < 2 then None else Some(rest[..|rest| - 2])
  }

  lemma BlockOfHeader(h: bytes)
    requires FirstTerm(h) == |h| - 4 && |h| >= 4 && CutLine(h).Line?
    ensures AfterRequestLine(h).Some? && Block(AfterRequestLine(h).value)
    ensures CutLine(h).rest == AfterRequestLine(h).value + CRLF
  {
    hide IndexOf, FirstTerm;
    var n, nl := |h|, IndexOf(h, LF);
    assert h[n - 4] == CR && h[n - 3] == LF && h[n - 2] == CR && h[n - 1] == LF;
    assert nl <= n - 3;
    var rest := h[nl + 1..];
    var s := rest[..|rest| - 2];
    assert rest == s + CRLF;
    assert forall i :: TermAt(s, i) ==> TermAt(h, i + nl + 1);
    assert |s| >= 2 ==> (s[0] == CR && s[1] == LF ==> TermAt(h, nl - 1));
  }

  /** The framing pass, said without scanning: it answers `n` exactly when every line is a
      field, no Transfer-Encoding appears, and the fields declare `n`. */
  lemma FramingMeaning(h: bytes, n: nat)
    requires FirstTerm(h) == |h| - 4 && |h| >= 4
    ensures InspectFraming(h) == Ok(n) <==>
            && AfterRequestLine(h).Some?
            && Fields(AfterRequestLine(h).value).Some?
            && Declares(SeenAll(Fields(AfterRequestLine(h).value).value), n)
  {
    hide FrameScan, ScanFields, Fields, CutLine, Declares, SeenAll, FirstTerm, Block;
    if CutLine(h).Line? {
      BlockOfHeader(h);
      var s := AfterRequestLine(h).value;
      ScanBlock(s, None, false);
      if Fields(s).Some? {
        ScanMeaning(Fields(s).value, None, false, n);
      }
    }
  }
}
