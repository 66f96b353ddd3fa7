/** The response serializer: a first pass measures, a second pass fills the buffer. */
module Serializer {
  import opened Bytes
  import opened Lines
  import opened Printing
  import opened Responses

  /** The header block up to and including the first `i` fields. */
  ghost function Part(r: Response, i: nat): bytes
    requires i <= |AllFields(r)|
  {
    JoinLines([StatusText(r)] + FieldTexts(AllFields(r)[..i]))
  }

  lemma {:induction false} JoinSnoc(texts: seq<bytes>, text: bytes)
    ensures JoinLines(texts + [text]) == JoinLines(texts) + (text + CRLF)
  {
    if texts == [] {
      assert texts + [text] == [text];
      assert [text][1..] == [];
      assert JoinLines([text]) == text + CRLF + [];
    } else {
      JoinSnoc(texts[1..], text);
      assert (texts + [text])[1..] == texts[1..] + [text];
      assert JoinLines(texts + [text]) == texts[0] + CRLF + (JoinLines(texts[1..]) + (text + CRLF));
    }
  }

  lemma PartStep(r: Response, i: nat)
    requires i < |AllFields(r)|
    ensures Part(r, i + 1) == Part(r, i) + (FieldText(AllFields(r)[i]) + CRLF)
  {
    hide AllFields, StatusText, FieldText;
    var f := AllFields(r);
    assert FieldTexts(f[..i + 1]) == FieldTexts(f[..i]) + [FieldText(f[i])];
    var texts := [StatusText(r)] + FieldTexts(f[..i]);
    assert [StatusText(r)] + FieldTexts(f[..i + 1]) == texts + [FieldText(f[i])];
    JoinSnoc(texts, FieldText(f[i]));
  }

  lemma PartEnds(r: Response)
    ensures Part(r, 0) == StatusText(r) + CRLF
    ensures Head(r) == Part(r, |AllFields(r)|) + CRLF
  {
    hide AllFields, StatusText;
    var f := AllFields(r);
    assert f[..|f|] == f;
    assert FieldTexts(f[..0]) == [];
    assert [StatusText(r)] + [] == [StatusText(r)];
    assert [StatusText(r)][1..] == [];
    assert JoinLines([StatusText(r)]) == StatusText(r) + CRLF + [];
  }

  lemma FieldTextIs(h: Header)
    ensures FieldText(h) + CRLF == h.name + [COLON, SP] + h.value + CRLF
  {}

  /** One header line, written piece by piece as the source does. */
  method PutField(buffer: array<byte>, offset: nat, h: Header) returns (next: nat)
    requires offset + |h.name| + |h.value| + 4 <= buffer.Length
    modifies buffer
    ensures next == offset + |h.name| + |h.value| + 4
    ensures buffer[..next] == old(buffer[..offset]) + (FieldText(h) + CRLF)
  {
    hide FieldText;
    next := offset;
    CopyInto(buffer, next, h.name);
    next := next + |h.name|;
    CopyInto(buffer, next, [COLON, SP]);
    next := next + 2;
    CopyInto(buffer, next, h.value);
    next := next + |h.value|;
    CopyInto(buffer, next, CRLF);
    next := next + 2;
    FieldTextIs(h);
  }

  /** The first pass of `http_response_serialize_headers`. */
  method Measure(r: Response) returns (total: nat)
    ensures total == |Head(r)|
  {
    hide Head, AllFields, AutoFields, StatusText;
    PartEnds(r);
    total := |StatusText(r)| + 2;
    var all := AllFields(r);
    for i := 0 to |all|
      invariant total == |Part(r, i)|
    {
      PartStep(r, i);
      total := total + |all[i].name| + 2;
      total := total + |all[i].value| + 2;
    }
    total := total + 2;
  }

  lemma {:induction false} PartFits(r: Response, i: nat)
    requires i <= |AllFields(r)|
    ensures |Part(r, i)| + 2 <= |Head(r)|
    decreases |AllFields(r)| - i
  {
    hide Head, AllFields, Part;
    PartEnds(r);
    if i < |AllFields(r)| {
      PartStep(r, i);
      PartFits(r, i + 1);
    }
  }

  /** The field lines of the second pass, after the status line. */
  method PutFields(r: Response, buffer: array<byte>, start: nat) returns (offset: nat)
    requires start <= buffer.Length && |Head(r)| <= buffer.Length
    requires buffer[..start] == Part(r, 0)
    modifies buffer
    ensures offset + 2 <= buffer.Length && buffer[..offset] == Part(r, |AllFields(r)|)
  {
    hide Head, AllFields, AutoFields, StatusText, Part;
    offset := start;
    var all := AllFields(r);
    PartFits(r, |all|);
    for i := 0 to |all|
      invariant offset <= buffer.Length && buffer[..offset] == Part(r, i)
    {
      PartFits(r, i + 1);
      PartStep(r, i);
      offset := PutField(buffer, offset, all[i]);
    }
  }

  /** The second pass: it ends exactly where the first pass said it would. */
  method Fill(r: Response, buffer: array<byte>) returns (offset: nat)
    requires buffer.Length > |Head(r)|
    modifies buffer
    ensures offset == |Head(r)| && buffer[..offset] == Head(r)
  {
    hide Head, AllFields, AutoFields, StatusText, Part;
    PartEnds(r);
    PartFits(r, 0);
    CopyInto(buffer, 0, StatusText(r) + CRLF);
    offset := PutFields(r, buffer, |StatusText(r)| + 2);
    CopyInto(buffer, offset, CRLF);
    offset := offset + 2;
  }

  /** The two `snprintf` buffers are large enough. */
  predicate BuffersFit(r: Response) {
    && |StatusText(r)| + 2 < STATUS_LINE_BUFFER
    && |CONTENT_LENGTH| + 4 + |Decimal(BodyLength(r.body))| < LENGTH_LINE_BUFFER
  }

  /** That is, each line with its CRLF and the NUL behind it fits its buffer. */
  lemma BuffersFitMeaning(r: Response)
    ensures BuffersFit(r) <==>
              && |StatusText(r) + CRLF + [NUL]| <= STATUS_LINE_BUFFER
              && |FieldText(Header(CONTENT_LENGTH, Decimal(BodyLength(r.body)))) + CRLF + [NUL]| <= LENGTH_LINE_BUFFER
  {
    hide StatusText, Decimal, BodyLength;
  }

  /** `http_response_serialize_headers`: both passes agree, so its `offset != total` exit is dead. The
      buffer ends in a NUL that does not count. */
  method SerializeHeaders(r: Response) returns (out: Option<bytes>, length: nat)
    ensures out == if BuffersFit(r) then Some(Head(r) + [NUL]) else None
    ensures length == if BuffersFit(r) then |Head(r)| else 0
  {
    hide Head, StatusText;
    if !BuffersFit(r) {
      return None, 0;
    }
    var total := Measure(r);
    var buffer := new byte[total + 1];
    var offset := Fill(r, buffer);
    if offset != total { assert false; }
    buffer[total] := NUL;
    assert buffer[..] == buffer[..total] + [NUL];
    return Some(buffer[..]), total;
  }

  function Pow10(k: nat): nat { if k == 0 then 1 else 10 * Pow10(k - 1) }

  lemma {:induction false} DecimalShort(n: nat, k: nat)
    requires k > 0 && n < Pow10(k)
    ensures |Decimal(n)| <= k
  {
    if n >= 10 {
      DecimalShort(n / 10, k - 1);
    }
  }

  lemma SizeMaxDigits()
    ensures SIZE_MAX < Pow10(20)
  {
    assert Pow10(5) == 100_000;
    assert Pow10(10) == 10_000_000_000;
    assert Pow10(15) == 1_000_000_000_000_000;
    assert Pow10(20) == 100_000_000_000_000_000_000;
  }

  /** Every response handlers can build is serialized. */
  lemma WellBuiltSerializes(r: Response)
    requires WellBuilt(r)
    ensures BuffersFit(r)
  {
    hide StatusText, Decimal, WellFormedField, CountNamed;
    SizeMaxDigits();
    DecimalShort(BodyLength(r.body), 20);
  }
}
