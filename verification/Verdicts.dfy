/** Which verdict a message gets: the error cases of the parser and of the framing pass, case by case. */
module Verdicts {
  import opened Bytes
  import opened Lines
  import opened Framing
  import opened Parser
  import opened Stream

  // ------------------------------------------------------------ request line

  /** The visible characters that delimit tokens (section 3.2.6 of RFC 7230). */
  const DELIMITERS: string := "\"(),/:;<=>?@[\\]{}"

  /** A token character is any visible character that is not a delimiter. */
  lemma TokenCharMeaning(c: byte)
    ensures TokenChar(c) <==>
              33 <= c <= 126 && forall i :: 0 <= i < |DELIMITERS| ==> c as int != DELIMITERS[i] as int
  {
    var d := DELIMITERS;
    assert d == ['"', '(', ')', ',', '/', ':', ';', '<', '=', '>', '?', '@', '[', '\\', ']', '{', '}'];
    assert c == 34 ==> c as int == d[0] as int;
    assert 40 <= c <= 41 ==> c as int == d[c as int - 39] as int;
    assert c == 44 ==> c as int == d[3] as int;
    assert c == 47 ==> c as int == d[4] as int;
    assert 58 <= c <= 64 ==> c as int == d[c as int - 53] as int;
    assert 91 <= c <= 93 ==> c as int == d[c as int - 79] as int;
    assert c == 123 ==> c as int == d[15] as int;
    assert c == 125 ==> c as int == d[16] as int;
  }

  /** The line is three non-empty words with one space between them. */
  ghost predicate ThreeWords(line: bytes, token: bytes, target: bytes, version: bytes) {
    && token != [] && target != [] && version != []
    && SP !in token && SP !in target && SP !in version
    && line == token + [SP] + (target + [SP] + version)
  }

  /** `HTTP/` followed by digits and dots. */
  ghost predicate OtherHttp(version: bytes) {
    exists rest :: rest != [] && version == HTTP_SLASH + rest && forall c :: c in rest ==> 48 <= c <= 57 || c == 46
  }

  lemma OtherHttpMeaning(v: bytes)
    ensures HttpLikeVersion(v) <==> OtherHttp(v)
  {
    if HttpLikeVersion(v) {
      var rest := v[5..];
      assert v == HTTP_SLASH + rest;
    }
    if OtherHttp(v) {
      var rest :| rest != [] && v == HTTP_SLASH + rest && forall c :: c in rest ==> 48 <= c <= 57 || c == 46;
      assert forall i :: 5 <= i < |v| ==> v[i] == rest[i - 5] && v[i] in rest;
    }
  }

  lemma WordsCut(line: bytes, token: bytes, target: bytes, version: bytes)
    requires ThreeWords(line, token, target, version)
    ensures var after := target + [SP] + version;
            && IndexOf(line, SP) == |token| && line[..|token|] == token && line[|token| + 1..] == after
            && IndexOf(after, SP) == |target| && after[..|target|] == target && after[|target| + 1..] == version
  {
    hide IndexOf;
    WordCut(token, SP, target + [SP] + version);
    WordCut(target, SP, version);
  }

  lemma TokensDiffer()
    ensures GET_TOKEN != HEAD_TOKEN && GET_TOKEN != POST_TOKEN && HEAD_TOKEN != POST_TOKEN
  {
    assert GET_TOKEN[0] != HEAD_TOKEN[0] && HEAD_TOKEN[0] != POST_TOKEN[0];
  }

  /** The verdict on a line of three words. */
  lemma WordsVerdict(line: bytes, token: bytes, target: bytes, version: bytes)
    requires ThreeWords(line, token, target, version)
    ensures var r := ParseRequestLine(line);
            if |line| > 8192 then r == Err(TooLarge)
            else if (exists c :: c in token && !TokenChar(c)) || NUL in target || NUL in version then
              r == Err(BadRequest)
            else if token != GET_TOKEN && token != HEAD_TOKEN && token != POST_TOKEN then r == Err(UnsupportedMethod)
            else if version == HTTP_1_0 || version == HTTP_1_1 then
              && r.Ok? && r.value.target == target && r.value.version == version
              && (r.value.meth == GET <==> token == GET_TOKEN)
              && (r.value.meth == HEAD <==> token == HEAD_TOKEN)
            else if OtherHttp(version) then r == Err(UnsupportedVersion)
            else r == Err(BadRequest)
  {
    hide IndexOf, OtherHttp, TokenChar, HttpLikeVersion;
    WordsCut(line, token, target, version);
    OtherHttpMeaning(version);
    TokensDiffer();
    assert WellFormedToken(token) <==> forall c :: c in token ==> TokenChar(c);
  }

  /** And any other line is rejected. */
  lemma NoWordsVerdict(line: bytes)
    requires forall token, target, version :: !ThreeWords(line, token, target, version)
    ensures ParseRequestLine(line) == Err(if |line| > 8192 then TooLarge else BadRequest)
  {
    hide IndexOf;
    var sp := IndexOf(line, SP);
    if sp > 0 {
      var token, after := line[..sp], line[sp + 1..];
      assert line == token + [SP] + after;
      var sp2 := IndexOf(after, SP);
      if sp2 > 0 {
        var target, version := after[..sp2], after[sp2 + 1..];
        assert after == target + [SP] + version;
        assert !ThreeWords(line, token, target, version);
      }
    }
  }

  // ------------------------------------------------------------- stored fields

  /** A field that may not be stored: an empty name, a blank or NUL in the name, or a NUL in the value. */
  ghost predicate BadField(h: Header) {
    h.name == [] || 32 in h.name || 9 in h.name || 0 in h.name || 0 in h.value
  }

  lemma TakeVerdict(acc: seq<Header>, h: Header)
    ensures TakeField(acc, Some(h)) ==
            if BadField(h) then Err(BadRequest) else if |acc| >= 100 then Err(TooManyHeaders) else Ok(acc + [h])
  {}

  /** The first field that cannot be stored decides: a malformed one is a bad request, a well-formed
      hundred-and-first is one too many. If there is none, the fields are stored as they are. */
  lemma {:induction false} FieldsVerdict(raw: seq<Header>, acc: seq<Header>, i: nat)
    requires i <= |raw| && |acc| + i <= 100 && forall j :: 0 <= j < i ==> !BadField(raw[j])
    ensures i == |raw| ==> JudgeFields(raw, acc) == Ok(acc + raw)
    ensures i < |raw| && BadField(raw[i]) ==> JudgeFields(raw, acc) == Err(BadRequest)
    ensures i < |raw| && !BadField(raw[i]) && |acc| + i == 100 ==> JudgeFields(raw, acc) == Err(TooManyHeaders)
    decreases i
  {
    hide BadField, TakeField;
    if raw == [] {
      assert acc + raw == acc;
    } else {
      TakeVerdict(acc, raw[0]);
      if i > 0 {
        var rest, acc' := raw[1..], acc + [raw[0]];
        FieldsVerdict(rest, acc', i - 1);
        assert acc' + rest == acc + raw;
      }
    }
  }

  // ---------------------------------------------------------------- framing

  /** A value that names the chunked coding: the word in any letter case, or the lower-case word inside. */
  lemma SaysChunkedMeaning(v: bytes)
    ensures SaysChunked(v) <==> Respelled(v, CHUNKED) || exists i :: StandsAt(v, CHUNKED, i)
  {
    EqualCIMeaning(v, CHUNKED);
    ContainsMeaning(v, CHUNKED);
  }

  /** The line is a field of that name, as the framing pass reads it. */
  ghost predicate Names(text: bytes, name: bytes) {
    SplitField(text).Some? && EqualCI(CStr(SplitField(text).value.name), name)
  }

  /** What the framing pass holds against line `i`, given the lines before it. */
  ghost function Fault(texts: seq<bytes>, i: nat): Option<ParseError>
    requires i < |texts|
  {
    if SplitField(texts[i]).None? then Some(BadRequest)
    else
      var v := CStr(SplitField(texts[i]).value.value);
      if Names(texts[i], TRANSFER_ENCODING) then
        if SaysChunked(v) then None else Some(UnsupportedTransferEncoding)
      else if Names(texts[i], CONTENT_LENGTH) then
        if ContentLength(v).Err? then Some(ContentLength(v).error)
        else if exists j :: 0 <= j < i && Names(texts[j], CONTENT_LENGTH) then Some(InvalidContentLength)
        else None
      else None
  }

  /** The scan has come to line `k` and found nothing wrong. */
  ghost predicate CameTo(texts: seq<bytes>, k: nat, seen: Option<nat>, chunked: bool) {
    && k <= |texts|
    && (seen.Some? <==> exists j :: 0 <= j < k && Names(texts[j], CONTENT_LENGTH))
    && (chunked <==> exists j :: 0 <= j < k && Names(texts[j], TRANSFER_ENCODING))
  }

  lemma NamesApart(text: bytes)
    ensures !(Names(text, TRANSFER_ENCODING) && Names(text, CONTENT_LENGTH))
  {
    if Names(text, TRANSFER_ENCODING) {
      NamesDiffer(CStr(SplitField(text).value.name));
    }
  }

  /** One line of the scan in these terms. */
  lemma FaultStep(texts: seq<bytes>, k: nat, seen: Option<nat>, chunked: bool)
    requires k < |texts| && CameTo(texts, k, seen, chunked)
    ensures var step := ScanLine(texts[k], seen, chunked);
            match Fault(texts, k)
            case Some(e) => step == Err(e)
            case None => step.Ok? && CameTo(texts, k + 1, step.value.0, step.value.1)
  {
    hide SplitField, EqualCI, SaysChunked, ContentLength;
    NamesApart(texts[k]);
    var step := ScanLine(texts[k], seen, chunked);
    if step.Ok? {
      assert step.value.0.Some? <==> seen.Some? || Names(texts[k], CONTENT_LENGTH);
      assert step.value.1 <==> chunked || Names(texts[k], TRANSFER_ENCODING);
    }
  }

  /** The verdict of the framing pass from line `k` on: the first fault, or else the chunked coding. */
  ghost predicate Verdict(texts: seq<bytes>, k: nat, r: Length) {
    && (forall i :: k <= i < |texts| && Fault(texts, i).Some? && (forall j :: k <= j < i ==> Fault(texts, j).None?) ==>
          r == Err(Fault(texts, i).value))
    && ((forall i :: k <= i < |texts| ==> Fault(texts, i).None?) ==>
          if exists j :: 0 <= j < |texts| && Names(texts[j], TRANSFER_ENCODING)
          then r == Err(UnsupportedTransferEncoding) else r.Ok?)
  }

  lemma CutFirst(texts: seq<bytes>)
    requires texts != [] && GoodLines(texts)
    ensures !(CRLF <= JoinLines(texts) + CRLF)
    ensures CutLine(JoinLines(texts) + CRLF) == Line(texts[0], JoinLines(texts[1..]) + CRLF)
  {
    hide CutLine;
    var s := JoinLines(texts) + CRLF;
    assert s == texts[0] + CRLF + (JoinLines(texts[1..]) + CRLF);
    CutLineIs(texts[0], JoinLines(texts[1..]) + CRLF);
    SecondByteNotLF(texts, CRLF);
  }

  lemma VerdictStep(texts: seq<bytes>, k: nat, r: Length)
    requires k < |texts|
    requires match Fault(texts, k) case Some(e) => r == Err(e) case None => Verdict(texts, k + 1, r)
    ensures Verdict(texts, k, r)
  {
    hide Fault, Names;
  }

  lemma VerdictEnd(texts: seq<bytes>, seen: Option<nat>, chunked: bool)
    requires CameTo(texts, |texts|, seen, chunked)
    ensures Verdict(texts, |texts|, Conclude(seen, chunked))
  {
    hide Fault, Names;
  }

  lemma {:induction false} VerdictFrom(texts: seq<bytes>, k: nat, seen: Option<nat>, chunked: bool)
    requires GoodLines(texts) && k <= |texts| && CameTo(texts, k, seen, chunked)
    ensures Verdict(texts, k, FrameScan(JoinLines(texts[k..]) + CRLF, seen, chunked))
    decreases |texts| - k
  {
    hide ScanLine, Fault, CameTo, CutLine, Verdict, Conclude;
    if k == |texts| {
      VerdictEnd(texts, seen, chunked);
      assert JoinLines(texts[k..]) + CRLF == CRLF;
    } else {
      var rest := texts[k..];
      assert rest[0] == texts[k] && rest[1..] == texts[k + 1..];
      CutFirst(rest);
      FaultStep(texts, k, seen, chunked);
      var step := ScanLine(texts[k], seen, chunked);
      if step.Ok? {
        VerdictFrom(texts, k + 1, step.value.0, step.value.1);
      }
      VerdictStep(texts, k, FrameScan(JoinLines(rest) + CRLF, seen, chunked));
    }
  }

  /** The framing pass over a request line and any header lines: the first faulty line decides; without
      one, a Transfer-Encoding is refused, and otherwise the block is framed. */
  lemma FramingVerdict(text: bytes, texts: seq<bytes>)
    requires text != [] && LF !in text && GoodLines(texts)
    ensures Verdict(texts, 0, InspectFraming(JoinLines([text] + texts) + CRLF))
  {
    hide FrameScan, Verdict, CutLine, FirstTerm;
    var all := [text] + texts;
    var h := JoinLines(all) + CRLF;
    assert all[1..] == texts;
    TermOfLines(all, []);
    assert h + [] == h;
    CutFirst(all);
    VerdictFrom(texts, 0, None, false);
    assert texts[0..] == texts;
  }

  lemma {:induction false} ScanErrors(s: bytes, seen: Option<nat>, chunked: bool)
    ensures FrameScan(s, seen, chunked).Err? ==>
              FrameScan(s, seen, chunked).error in
              {BadRequest, TooLarge, InvalidContentLength, UnsupportedTransferEncoding}
    decreases |s|
  {
    hide SplitField, SaysChunked, EqualCI, CStr, IndexOf;
    if s != [] && !(CRLF <= s) && CutLine(s).Line? {
      var Line(text, rest) := CutLine(s);
      var step := ScanLine(text, seen, chunked);
      if step.Ok? {
        ScanErrors(rest, step.value.0, step.value.1);
      }
    }
  }

  /** The reader's error map changes no error the framing pass gives. */
  lemma ErrorsPassThrough(h: bytes)
    requires InspectFraming(h).Err?
    ensures MapFramingError(InspectFraming(h).error) == InspectFraming(h).error
  {
    hide FrameScan;
    if CutLine(h).Line? {
      ScanErrors(CutLine(h).rest, None, false);
    }
  }
}
