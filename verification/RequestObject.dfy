/** The request object the parser fills in place. */
module RequestObject {
  import opened Bytes
  import opened Lines
  import opened Framing
  import opened Parser

  /** One turn of the header loop, in index arithmetic. */
  lemma HeaderLoopAt(head: bytes, cursor: nat, len: int, next: int, acc: seq<Header>)
    requires cursor < |head| && len == IndexOf(head[cursor..], LF) && next == cursor + len + 1
    ensures HeaderLoop(head[cursor..], acc) ==
            if len <= 0 || head[cursor + len - 1] != CR then Err(BadRequest)
            else match TakeField(acc, SplitField(head[cursor..cursor + len - 1]))
              case Err(e) => Err(e)
              case Ok(acc') => HeaderLoop(head[next..], acc')
  {
    CutAt(head, cursor, len, next);
  }

  /** Stored names as a C string walk sees them. */
  ghost function SeenNames(hs: seq<Header>): (r: seq<Header>)
    ensures |r| == |hs| && forall i :: 0 <= i < |hs| ==> r[i] == Header(CStr(hs[i].name), hs[i].value)
  {
    seq(|hs|, i requires 0 <= i < |hs| => Header(CStr(hs[i].name), hs[i].value))
  }

  lemma GoodNamesSeen(hs: seq<Header>)
    requires forall i :: 0 <= i < |hs| ==> GoodField(hs[i])
    ensures SeenNames(hs) == hs
  {}

  lemma StructuredIsGood(head: bytes)
    requires Structured(head).Ok?
    ensures forall i :: 0 <= i < |Structured(head).value.1| ==> GoodField(Structured(head).value.1[i])
  {
    var s := CutLine(head).rest;
    HeaderLoopJudges(s, []);
    JudgeFieldsIs(Fields(s).value, []);
    assert [] + Fields(s).value == Fields(s).value;
  }

  class HttpRequest {
    var line: Option<RequestLine>
    var headers: seq<Header>
    var body: bytes

    ghost predicate Empty()
      reads this
    {
      line.None? && headers == [] && body == []
    }

    ghost predicate Holds(r: Request)
      reads this
    {
      line == Some(r.line) && headers == r.headers && body == r.body
    }

    /** `http_request_init` / `http_request_destroy`. */
    method Reset()
      modifies this
      ensures Empty()
    {
      line, headers, body := None, [], [];
    }

    constructor ()
      ensures Empty()
    {
      line, headers, body := None, [], [];
    }

    /** `http_request_get_header`. */
    method GetHeader(name: bytes) returns (v: Option<bytes>)
      ensures v == FirstNamed(SeenNames(headers), CStr(name))
    {
      var i := 0;
      ghost var all := SeenNames(headers);
      ghost var goal := FirstNamed(all, CStr(name));
      assert all[0..] == all;
      while i < |headers|
        invariant 0 <= i <= |headers|
        invariant goal == FirstNamed(all[i..], CStr(name))
      {
        var next := i + 1;
        assert all[i..][1..] == all[next..];
        var same := HeaderNameEqual(headers[i].name, name);
        if same {
          return Some(headers[i].value);
        }
        i := next;
      }
      return None;
    }

    /** `parse_header_line` and `append_header`. */
    method ParseHeaderLine(text: bytes) returns (e: Option<ParseError>)
      modifies `headers
      ensures match TakeField(old(headers), SplitField(text))
              case Err(why) => e == Some(why) && headers == old(headers)
              case Ok(hs) => e == None && headers == hs
    {
      var field := SplitField(text);
      if field.None? || !GoodField(field.value) {
        return Some(BadRequest);
      }
      if |headers| >= MAX_HEADERS {
        return Some(TooManyHeaders);
      }
      headers := headers + [field.value];
      return None;
    }

    /** The line loop of `http_parse_request` over the header lines of `head` from `start` on. */
    method ParseHeaderLines(head: bytes, start: nat) returns (e: Option<ParseError>)
      requires start <= |head| && headers == []
      modifies `headers
      ensures match HeaderLoop(head[start..], [])
              case Err(why) => e == Some(why)
              case Ok(hs) => e == None && headers == hs
    {
      var cursor := start;
      ghost var goal := HeaderLoop(head[start..], []);
      while cursor < |head|
        invariant 0 <= cursor <= |head|
        invariant goal == HeaderLoop(head[cursor..], headers)
      {
        var len := IndexOf(head[cursor..], LF);
        var next := cursor + len + 1;
        HeaderLoopAt(head, cursor, len, next, headers);
        if len <= 0 || head[cursor + len - 1] != CR {
          return Some(BadRequest);
        }
        e := ParseHeaderLine(head[cursor..cursor + len - 1]);
        if e.Some? {
          return e;
        }
        cursor := next;
      }
      return None;
    }

    /** The part of `http_parse_request` that reads lines. */
    method ParseLines(head: bytes) returns (e: Option<ParseError>)
      requires Empty()
      modifies this
      ensures body == []
      ensures match Structured(head)
              case Err(why) => e == Some(why)
              case Ok((rl, hs)) => e == None && line == Some(rl) && headers == hs
    {
      hide Parser.ParseRequestLine, HeaderLoop, IndexOf;
      var nl := IndexOf(head, LF);
      if nl <= 0 || head[nl - 1] != CR {
        return Some(BadRequest);
      }
      var rl := Parser.ParseRequestLine(head[..nl - 1]);
      if rl.Err? {
        return Some(rl.error);
      }
      line := Some(rl.value);
      e := ParseHeaderLines(head, nl + 1);
    }

    /** The final checks over the stored fields. */
    method CheckLength(expected: nat) returns (e: Option<ParseError>)
      requires forall i :: 0 <= i < |headers| ==> GoodField(headers[i])
      ensures match Revalidate(headers, expected)
              case Err(why) => e == Some(why)
              case Ok(_) => e == None
    {
      LiteralsAreCStrings();
      GoodNamesSeen(headers);
      var cl := GetHeader(CONTENT_LENGTH);
      var te := GetHeader(TRANSFER_ENCODING);
      if te.Some? {
        return Some(UnsupportedTransferEncoding);
      }
      var n := 0;
      if cl.Some? {
        if CountNamed(headers, CONTENT_LENGTH) > 1 {
          return Some(InvalidContentLength);
        }
        var parsed := ParseContentLengthValue(cl.value);
        if parsed.Err? {
          return Some(parsed.error);
        }
        n := parsed.value;
      }
      return if n != expected then Some(BadRequest) else None;
    }

    /** The part of `http_parse_request` that follows the framing checks. */
    method ParseFramedMessage(h: bytes, rest: bytes, n: nat) returns (e: Option<ParseError>)
      requires Empty() && |h| >= 2
      modifies this
      ensures match ParseFramed(h, rest, n)
              case Err(why) => e == Some(why) && Empty()
              case Ok(r) => e == None && Holds(r)
    {
      var head := h[..|h| - 2];
      e := ParseLines(head);
      if e.Some? {
        Reset();
        return;
      }
      StructuredIsGood(head);
      e := CheckLength(n);
      if e.Some? {
        Reset();
        return;
      }
      body := rest;
    }

    /** The framing checks of `http_parse_request` and what follows them. */
    method ParseSplitMessage(h: bytes, d: bytes) returns (e: Option<ParseError>)
      requires Empty() && 4 <= |h| <= |d|
      modifies this
      ensures match ParseSplit(h, d)
              case Err(why) => e == Some(why) && Empty()
              case Ok(r) => e == None && Holds(r)
    {
      if |h| > MAX_HEADER_BYTES {
        return Some(TooLarge);
      }
      var expected := InspectMessageFraming(h);
      if expected.Err? {
        return Some(expected.error);
      }
      if |d| != |h| + expected.value {
        return Some(BadRequest);
      }
      e := ParseFramedMessage(h, d[|h|..], expected.value);
    }

    /** `http_parse_request`: the object holds the parsed request, or nothing at all. */
    method Parse(d: bytes) returns (e: Option<ParseError>)
      modifies this
      ensures match ParseRequest(d)
              case Err(why) => e == Some(why) && Empty()
              case Ok(r) => e == None && Holds(r)
    {
      Reset();
      var term := FindHeaderTerminator(d);
      if term < 0 {
        return Some(BadRequest);
      }
      var h := d[..term + 4];
      assert h == HeaderPart(d);
      e := ParseSplitMessage(h, d);
    }
  }
}
