/** CRLF lines, header fields and the CRLFCRLF header terminator. */
module Lines {
  import opened Bytes

  datatype Header = Header(name: bytes, value: bytes)

  // -------------------------------------------------------- header terminator

  predicate TermAt(s: bytes, i: int) {
    0 <= i && i + 4 <= |s| && s[i] == CR && s[i + 1] == LF && s[i + 2] == CR && s[i + 3] == LF
  }

  function TermFrom(s: bytes, from: nat): (t: int)
    ensures t == -1 || (from <= t && TermAt(s, t))
    ensures forall i :: from <= i && TermAt(s, i) ==> 0 <= t <= i
    decreases |s| - from
  {
    if from + 4 > |s| then -1
    else if TermAt(s, from) then from
    else TermFrom(s, from + 1)
  }

  /** Index of the first CRLFCRLF, or -1. */
  function FirstTerm(s: bytes): (t: int)
    ensures t == -1 || TermAt(s, t)
    ensures forall i :: TermAt(s, i) ==> 0 <= t <= i
  {
    TermFrom(s, 0)
  }

  /** `http_find_header_terminator`. */
  method FindHeaderTerminator(data: bytes) returns (t: int)
    ensures t == FirstTerm(data)
  {
    var i := 0;
    while i + 3 < |data|
      invariant 0 <= i
      invariant forall j :: j < i ==> !TermAt(data, j)
    {
      if data[i] == CR && data[i + 1] == LF && data[i + 2] == CR && data[i + 3] == LF {
        assert TermAt(data, i);
        return i;
      }
      i := i + 1;
    }
    return -1;
  }

  /** Bytes that arrive later never move a terminator that is already there. */
  lemma FirstTermPrefix(p: bytes, s: bytes)
    requires p <= s
    ensures FirstTerm(p) >= 0 ==> FirstTerm(s) == FirstTerm(p)
    ensures 0 <= FirstTerm(s) <= |p| - 4 ==> FirstTerm(p) == FirstTerm(s)
  {
    assert forall i :: i + 4 <= |p| ==> (TermAt(p, i) <==> TermAt(s, i));
  }

  // --------------------------------------------------------------------- lines

  datatype Cut = NoLine | Line(text: bytes, rest: bytes)

  /** One line up to LF; the LF must be preceded by CR, which is not part of the text. */
  function CutLine(s: bytes): (c: Cut)
    ensures c.Line? ==> |s| == |c.text| + 2 + |c.rest|
    ensures c.Line? ==> forall i :: 0 <= i < |c.text| ==> c.text[i] == s[i] != LF
  {
    var nl := IndexOf(s, LF);
    if nl <= 0 || s[nl - 1] != CR then NoLine
    else Line(s[..nl - 1], s[nl + 1..])
  }

  /** The only way to write a line down is its text, CR and LF. */
  lemma CutLineIs(text: bytes, rest: bytes)
    requires LF !in text
    ensures CutLine(text + CRLF + rest) == Line(text, rest)
  {
    var s := text + CRLF + rest;
    IndexOfIs(s, LF, |text| + 1);
    assert s[..|text|] == text;
    assert s[|text| + 2..] == rest;
  }

  /** Cutting a line does not look past its LF. */
  lemma CutLineExtends(s: bytes, more: bytes)
    requires LF in s
    ensures CutLine(s).NoLine? ==> CutLine(s + more).NoLine?
    ensures CutLine(s).Line? ==> CutLine(s + more) == Line(CutLine(s).text, CutLine(s).rest + more)
  {
    var nl := IndexOf(s, LF);
    IndexOfIs(s + more, LF, nl);
    assert nl > 0 ==> (s + more)[..nl - 1] == s[..nl - 1];
    assert (s + more)[nl + 1..] == s[nl + 1..] + more;
  }

  function JoinLines(texts: seq<bytes>): bytes {
    if texts == [] then [] else texts[0] + CRLF + JoinLines(texts[1..])
  }

  ghost predicate GoodLines(texts: seq<bytes>) {
    forall i :: 0 <= i < |texts| ==> texts[i] != [] && LF !in texts[i]
  }

  /** No terminator starts inside a line's text. */
  lemma NoTermInText(s: bytes, n: nat)
    requires n < |s| && s[n] == CR && forall i :: 0 <= i < n ==> s[i] != LF
    ensures forall i :: TermAt(s, i) ==> i >= n
  {
    forall i | TermAt(s, i) ensures i >= n {
      assert s[i + 1] == LF;
    }
  }

  /** The terminator of a line followed by more text is the terminator of that text. */
  lemma TermAfterLine(text: bytes, tail: bytes)
    requires LF !in text && FirstTerm(tail) >= 0 && tail[1] != LF
    ensures FirstTerm(text + CRLF + tail) == |text| + 2 + FirstTerm(tail)
  {
    var n, s := |text|, text + CRLF + tail;
    assert s[n] == CR && s[n + 1] == LF && s[n + 3] == tail[1];
    assert s[n + 2..] == tail;
    NoTermInText(s, n);
    assert TermAt(s, n + 2 + FirstTerm(tail));
    forall i | TermAt(s, i) ensures i >= n + 2 + FirstTerm(tail) {
      assert i != n && i != n + 1;
      assert TermAt(s[n + 2..], i - n - 2);
    }
  }

  lemma TermAtBlank(text: bytes, rest: bytes)
    requires LF !in text
    ensures FirstTerm(text + CRLF + (CRLF + rest)) == |text|
  {
    var s := text + CRLF + (CRLF + rest);
    assert s[|text|] == CR && TermAt(s, |text|);
    NoTermInText(s, |text|);
  }

  lemma SecondByteNotLF(texts: seq<bytes>, rest: bytes)
    requires texts != [] && GoodLines(texts)
    ensures |JoinLines(texts)| >= 3 && (JoinLines(texts) + rest)[1] != LF
  {
    var t0 := texts[0];
    assert JoinLines(texts) == t0 + CRLF + JoinLines(texts[1..]);
    assert |t0| > 1 ==> t0[1] in t0;
  }

  /** A block of non-empty lines ends at its blank line and nowhere before. */
  lemma JoinStep(texts: seq<bytes>, rest: bytes)
    requires texts != []
    ensures |JoinLines(texts)| == |texts[0]| + 2 + |JoinLines(texts[1..])|
    ensures JoinLines(texts) + CRLF + rest == texts[0] + CRLF + (JoinLines(texts[1..]) + CRLF + rest)
    ensures |texts| == 1 ==> JoinLines(texts[1..]) + CRLF + rest == CRLF + rest && JoinLines(texts[1..]) == []
  {}

  lemma {:induction false} TermOfLines(texts: seq<bytes>, rest: bytes)
    requires texts != [] && GoodLines(texts)
    ensures |JoinLines(texts)| >= 2
    ensures FirstTerm(JoinLines(texts) + CRLF + rest) == |JoinLines(texts)| - 2
  {
    hide FirstTerm, TermAt, JoinLines;
    var t0, more := texts[0], JoinLines(texts[1..]);
    var tail := more + CRLF + rest;
    JoinStep(texts, rest);
    if |texts| == 1 {
      TermAtBlank(t0, rest);
    } else {
      TermOfLines(texts[1..], rest);
      SecondByteNotLF(texts[1..], CRLF + rest);
      assert tail == more + (CRLF + rest);
      TermAfterLine(t0, tail);
    }
  }

  // -------------------------------------------------------------------- fields

  /** The `name: value` split of a header line, before either parser judges it. */
  function SplitField(text: bytes): Option<Header> {
    var colon := IndexOf(text, COLON);
    if colon <= 0 then None else Some(Header(text[..colon], Trim(text[colon + 1..])))
  }

  /** Canonical header line. */
  function FieldText(h: Header): bytes { h.name + [COLON, SP] + h.value }

  lemma TrimLead(v: bytes)
    ensures Trim([SP] + v) == Trim(v)
  {
    assert ([SP] + v)[1..] == v;
  }

  lemma SplitFieldText(h: Header)
    requires h.name != [] && COLON !in h.name
    ensures SplitField(FieldText(h)) == Some(Header(h.name, Trim(h.value)))
  {
    var text := FieldText(h);
    IndexOfIs(text, COLON, |h.name|);
    assert text[..|h.name|] == h.name;
    assert text[|h.name| + 1..] == [SP] + h.value;
    TrimLead(h.value);
  }

  predicate Blank(s: bytes) { forall i :: 0 <= i < |s| ==> s[i] == SP || s[i] == TAB }

  lemma TrimBlanks(s: bytes)
    requires Blank(s)
    ensures Trim(s) == []
  {
    assert TrimStart(s) == [];
  }

  lemma TrimFront(pad: bytes, rest: bytes)
    requires Blank(pad) && rest != [] && !Ows(rest[0])
    ensures TrimStart(pad + rest) == rest
  {
    var s := pad + rest;
    var t := TrimStart(s);
    assert s[|pad|] == rest[0];
    assert t == s[|pad|..];
  }

  lemma TrimBack(core: bytes, pad: bytes)
    requires Blank(pad) && core != [] && !Ows(core[|core| - 1])
    ensures TrimEnd(core + pad) == core
  {
    var s := core + pad;
    var t := TrimEnd(s);
    assert s[|core| - 1] == core[|core| - 1];
    assert forall i :: |core| <= i < |s| ==> s[i] == pad[i - |core|];
    assert t == s[..|core|];
  }

  lemma TrimIs(pad: bytes, core: bytes, pad': bytes)
    requires Blank(pad) && Blank(pad') && Trimmed(core)
    ensures Trim(pad + core + pad') == core
  {
    hide TrimStart, TrimEnd;
    if core == [] {
      assert Blank(pad + core + pad');
      TrimBlanks(pad + core + pad');
    } else {
      assert pad + core + pad' == pad + (core + pad');
      TrimFront(pad, core + pad');
      TrimBack(core, pad');
    }
  }

  lemma Regroup(s: bytes, pad: bytes, t: bytes, core: bytes, pad': bytes)
    requires |t| <= |s| && t == s[|s| - |t|..] && pad == s[..|s| - |t|] && core <= t && pad' == t[|core|..]
    ensures s == pad + core + pad'
  {
    assert t == core + pad';
    assert s == pad + t;
  }

  lemma TrimPads(s: bytes) returns (pad: bytes, pad': bytes)
    ensures Blank(pad) && Blank(pad') && s == pad + Trim(s) + pad'
  {
    hide TrimStart, TrimEnd;
    var t := TrimStart(s);
    var core := TrimEnd(t);
    pad, pad' := s[..|s| - |t|], t[|core|..];
    Regroup(s, pad, t, core, pad');
  }

  /** A header line: a name without colons, a colon, and the value between blanks. */
  ghost predicate IsField(text: bytes, h: Header, pad: bytes, pad': bytes) {
    && h.name != [] && COLON !in h.name && Trimmed(h.value) && Blank(pad) && Blank(pad')
    && text == h.name + [COLON] + (pad + h.value + pad')
  }

  /** The split finds the field exactly where the line has that form. */
  lemma SplitFieldMeaning(text: bytes, h: Header)
    ensures SplitField(text) == Some(h) <==> exists pad, pad' :: IsField(text, h, pad, pad')
  {
    hide Trim, Trimmed, Blank;
    var k := IndexOf(text, COLON);
    if SplitField(text) == Some(h) {
      var rest := text[k + 1..];
      var pad, pad' := TrimPads(rest);
      assert text == h.name + [COLON] + rest;
      assert IsField(text, h, pad, pad');
    }
    forall pad, pad' | IsField(text, h, pad, pad') ensures SplitField(text) == Some(h) {
      IndexOfIs(text, COLON, |h.name|);
      assert text[..|h.name|] == h.name;
      assert text[|h.name| + 1..] == pad + h.value + pad';
      TrimIs(pad, h.value, pad');
    }
  }

  /** All fields of a block of complete lines, or None if some line is not a field. */
  function Fields(s: bytes): Option<seq<Header>>
    decreases |s|
  {
    if s == [] then Some([])
    else match CutLine(s)
      case NoLine => None
      case Line(text, rest) =>
        match (SplitField(text), Fields(rest))
        case (Some(h), Some(hs)) => Some([h] + hs)
        case _ => None
  }

  /** The number of fields carrying a given name. */
  function CountNamed(hs: seq<Header>, name: bytes): nat {
    if hs == [] then 0 else (if EqualCI(hs[0].name, name) then 1 else 0) + CountNamed(hs[1..], name)
  }

  /** `http_request_get_header`: the first field of that name. */
  function FirstNamed(hs: seq<Header>, name: bytes): (v: Option<bytes>)
    ensures v.None? <==> forall i :: 0 <= i < |hs| ==> !EqualCI(hs[i].name, name)
    ensures v.None? <==> CountNamed(hs, name) == 0
    ensures v.Some? ==> exists i :: 0 <= i < |hs| && EqualCI(hs[i].name, name) && hs[i].value == v.value
  {
    if hs == [] then None
    else if EqualCI(hs[0].name, name) then Some(hs[0].value)
    else FirstNamed(hs[1..], name)
  }

  /** The first position that holds a field of that name. */
  predicate IsFirst(hs: seq<Header>, name: bytes, i: int) {
    0 <= i < |hs| && EqualCI(hs[i].name, name) && forall j :: 0 <= j < i ==> !EqualCI(hs[j].name, name)
  }

  lemma {:induction false} FirstNamedAt(hs: seq<Header>, name: bytes, i: int)
    requires IsFirst(hs, name, i)
    ensures FirstNamed(hs, name) == Some(hs[i].value)
    decreases i
  {
    hide EqualCI;
    if i > 0 {
      assert !EqualCI(hs[0].name, name);
      FirstNamedAt(hs[1..], name, i - 1);
    }
  }

  lemma {:induction false} FirstNamedWhere(hs: seq<Header>, name: bytes) returns (i: int)
    requires FirstNamed(hs, name).Some?
    ensures IsFirst(hs, name, i)
  {
    hide EqualCI;
    if EqualCI(hs[0].name, name) {
      return 0;
    }
    i := FirstNamedWhere(hs[1..], name);
    i := i + 1;
    assert forall j :: 1 <= j < |hs| ==> hs[j] == hs[1..][j - 1];
  }

  /** The value found is that of the first field of the name, and of no other position. */
  lemma FirstNamedMeaning(hs: seq<Header>, name: bytes, v: bytes)
    ensures FirstNamed(hs, name) == Some(v) <==> exists i :: IsFirst(hs, name, i) && hs[i].value == v
  {
    hide EqualCI, FirstNamed;
    if FirstNamed(hs, name).Some? {
      var i := FirstNamedWhere(hs, name);
      FirstNamedAt(hs, name, i);
    }
    forall i | IsFirst(hs, name, i) ensures FirstNamed(hs, name) == Some(hs[i].value) {
      FirstNamedAt(hs, name, i);
    }
  }

  /** The same fields with the names spelled in any letter case. */
  predicate SameFields(hs: seq<Header>, hs': seq<Header>) {
    |hs| == |hs'| && forall i :: 0 <= i < |hs| ==> Respelled(hs[i].name, hs'[i].name) && hs[i].value == hs'[i].value
  }

  lemma RespelledNames(a: bytes, a': bytes, b: bytes, b': bytes)
    requires Respelled(a, a') && Respelled(b, b')
    ensures EqualCI(a, b) <==> EqualCI(a', b')
  {
    EqualCIMeaning(a, a');
    EqualCIMeaning(b, b');
    assert forall i :: 0 <= i < |a| ==> Lower(a[i]) == Lower(a'[i]);
    assert forall i :: 0 <= i < |b| ==> Lower(b[i]) == Lower(b'[i]);
  }

  /** Neither the lookup nor the count depends on the letter case of the names, on either side. */
  lemma {:induction false} RespellingKept(hs: seq<Header>, hs': seq<Header>, name: bytes, name': bytes)
    requires SameFields(hs, hs') && Respelled(name, name')
    ensures FirstNamed(hs, name) == FirstNamed(hs', name')
    ensures CountNamed(hs, name) == CountNamed(hs', name')
  {
    hide EqualCI, Respelled;
    if hs != [] {
      RespelledNames(hs[0].name, hs'[0].name, name, name');
      RespellingKept(hs[1..], hs'[1..], name, name');
    }
  }
}
