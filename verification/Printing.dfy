/** Writing a block of header lines so that it can be cut again. */
module Printing {
  import opened Bytes
  import opened Lines
  import opened Framing
  import opened Parser

  function FieldTexts(hs: seq<Header>): (r: seq<bytes>)
    ensures |r| == |hs| && forall i :: 0 <= i < |hs| ==> r[i] == FieldText(hs[i])
  {
    seq(|hs|, i requires 0 <= i < |hs| => FieldText(hs[i]))
  }

  predicate Clean(s: bytes) { LF !in s && NUL !in s }

  predicate WellFormedField(h: Header) {
    && GoodName(h.name) && COLON !in h.name && LF !in h.name
    && Clean(h.value) && Trimmed(h.value)
  }

  lemma FieldTextGood(h: Header)
    requires WellFormedField(h)
    ensures FieldText(h) != [] && LF !in FieldText(h)
    ensures SplitField(FieldText(h)) == Some(h)
  {
    hide SplitField, Trim;
    SplitFieldText(h);
    TrimCore([], h.value);
    assert [] + h.value == h.value;
  }

  lemma {:induction false} PrintedFields(hs: seq<Header>)
    requires forall i :: 0 <= i < |hs| ==> WellFormedField(hs[i])
    ensures Fields(JoinLines(FieldTexts(hs))) == Some(hs)
  {
    hide CutLine, SplitField, FieldText, WellFormedField;
    if hs != [] {
      var texts := FieldTexts(hs);
      assert texts[1..] == FieldTexts(hs[1..]);
      var more := JoinLines(texts[1..]);
      FieldTextGood(hs[0]);
      CutLineIs(texts[0], more);
      PrintedFields(hs[1..]);
      assert hs == [hs[0]] + hs[1..];
    }
  }

  /** A first line, one line per field, and the blank line. */
  function BlockOf(text: bytes, hs: seq<Header>): bytes {
    JoinLines([text] + FieldTexts(hs)) + CRLF
  }

  lemma BlockLinesGood(text: bytes, hs: seq<Header>)
    requires text != [] && LF !in text
    requires forall i :: 0 <= i < |hs| ==> WellFormedField(hs[i])
    ensures GoodLines([text] + FieldTexts(hs))
  {
    hide FieldText, WellFormedField;
    forall i | 0 <= i < |hs| ensures FieldText(hs[i]) != [] && LF !in FieldText(hs[i]) {
      FieldTextGood(hs[i]);
    }
  }

  /** Whatever follows it, a block is found up to its blank line. */
  lemma BlockTerm(text: bytes, hs: seq<Header>, rest: bytes)
    requires text != [] && LF !in text
    requires forall i :: 0 <= i < |hs| ==> WellFormedField(hs[i])
    ensures |BlockOf(text, hs)| >= 4
    ensures FirstTerm(BlockOf(text, hs) + rest) == |BlockOf(text, hs)| - 4
    ensures FirstTerm(BlockOf(text, hs)) == |BlockOf(text, hs)| - 4
    ensures HeaderPart(BlockOf(text, hs) + rest) == BlockOf(text, hs)
  {
    hide FirstTerm, WellFormedField, FieldTexts;
    BlockLinesGood(text, hs);
    TermOfLines([text] + FieldTexts(hs), rest);
    FirstTermPrefix(BlockOf(text, hs), BlockOf(text, hs) + rest);
  }

  /** And it is cut into its first line and exactly its fields. */
  lemma BlockCut(text: bytes, hs: seq<Header>)
    requires LF !in text
    requires forall i :: 0 <= i < |hs| ==> WellFormedField(hs[i])
    ensures CutLine(BlockOf(text, hs)).Line? && CutLine(BlockOf(text, hs)).text == text
    ensures AfterRequestLine(BlockOf(text, hs)).Some?
    ensures Fields(AfterRequestLine(BlockOf(text, hs)).value) == Some(hs)
  {
    hide CutLine, Fields, WellFormedField, FieldText;
    var texts, j := [text] + FieldTexts(hs), JoinLines(FieldTexts(hs));
    assert texts[1..] == FieldTexts(hs);
    assert BlockOf(text, hs) == text + CRLF + (j + CRLF);
    CutLineIs(text, j + CRLF);
    assert (j + CRLF)[..|j|] == j;
    PrintedFields(hs);
  }

  lemma BlockFound(text: bytes, hs: seq<Header>, rest: bytes)
    requires text != [] && LF !in text
    requires forall i :: 0 <= i < |hs| ==> WellFormedField(hs[i])
    ensures |BlockOf(text, hs)| >= 4
    ensures FirstTerm(BlockOf(text, hs) + rest) == |BlockOf(text, hs)| - 4
    ensures FirstTerm(BlockOf(text, hs)) == |BlockOf(text, hs)| - 4
    ensures HeaderPart(BlockOf(text, hs) + rest) == BlockOf(text, hs)
    ensures CutLine(BlockOf(text, hs)).Line? && CutLine(BlockOf(text, hs)).text == text
    ensures AfterRequestLine(BlockOf(text, hs)).Some?
    ensures Fields(AfterRequestLine(BlockOf(text, hs)).value) == Some(hs)
  {
    hide *;
    BlockTerm(text, hs, rest);
    BlockCut(text, hs);
  }
}
