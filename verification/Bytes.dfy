/** Octets, C strings and the small lexical vocabulary the server's parsers share. */
module Bytes {

  newtype byte = b: int | 0 <= b < 256
  type bytes = seq<byte>

  datatype Option<+T> = None | Some(value: T)
  datatype Result<+T, +E> = Ok(value: T) | Err(error: E)

  const NUL: byte := 0
  const TAB: byte := 9
  const LF: byte := 10
  const CR: byte := 13
  const SP: byte := 32
  const COMMA: byte := 44
  const COLON: byte := 58
  const QUESTION: byte := 63
  const SLASH: byte := 47
  const CRLF: bytes := [CR, LF]

  const CONTENT_LENGTH: bytes := [67, 111, 110, 116, 101, 110, 116, 45, 76, 101, 110, 103, 116, 104]  // Content-Length
  const TRANSFER_ENCODING: bytes :=
    [84, 114, 97, 110, 115, 102, 101, 114, 45, 69, 110, 99, 111, 100, 105, 110, 103]  // Transfer-Encoding
  const CHUNKED: bytes := [99, 104, 117, 110, 107, 101, 100]  // chunked
  const CONNECTION: bytes := [67, 111, 110, 110, 101, 99, 116, 105, 111, 110]  // Connection
  const CLOSE: bytes := [99, 108, 111, 115, 101]  // close
  const KEEP_ALIVE: bytes := [107, 101, 101, 112, 45, 97, 108, 105, 118, 101]  // keep-alive
  const CONTENT_TYPE: bytes := [67, 111, 110, 116, 101, 110, 116, 45, 84, 121, 112, 101]  // Content-Type
  const SERVER: bytes := [83, 101, 114, 118, 101, 114]  // Server
  const HTTP_1_0: bytes := [72, 84, 84, 80, 47, 49, 46, 48]  // HTTP/1.0
  const HTTP_1_1: bytes := [72, 84, 84, 80, 47, 49, 46, 49]  // HTTP/1.1

  // ---------------------------------------------------------------- searching

  function IndexFrom(s: bytes, c: byte, from: nat): (k: int)
    requires from <= |s|
    ensures k == -1 || (from <= k < |s| && s[k] == c)
    ensures forall i :: from <= i < (if k < 0 then |s| else k) ==> s[i] != c
    decreases |s| - from
  {
    if from == |s| then -1
    else if s[from] == c then from
    else IndexFrom(s, c, from + 1)
  }

  /** `memchr`: the first index holding `c`, or -1. */
  function IndexOf(s: bytes, c: byte): (k: int)
    ensures -1 <= k < |s|
    ensures k >= 0 ==> s[k] == c
    ensures forall i :: 0 <= i < k ==> s[i] != c
    ensures k < 0 <==> c !in s
  {
    IndexFrom(s, c, 0)
  }

  /** `memcpy(buffer + offset, src, n)`. */
  method CopyInto(buffer: array<byte>, offset: nat, src: bytes)
    requires offset + |src| <= buffer.Length
    modifies buffer
    ensures buffer[..offset + |src|] == old(buffer[..offset]) + src
  {
    forall i | 0 <= i < |src| {
      buffer[offset + i] := src[i];
    }
  }

  /** The pieces between the separators; a list always has at least one piece. */
  function SplitOn(s: bytes, sep: byte): (parts: seq<bytes>)
    ensures parts != []
    decreases |s|
  {
    var k := IndexOf(s, sep);
    if k < 0 then [s] else [s[..k]] + SplitOn(s[k + 1..], sep)
  }

  /** Pieces put together again with the separator between them. */
  function Join(parts: seq<bytes>, sep: byte): bytes {
    if parts == [] then []
    else if |parts| == 1 then parts[0]
    else parts[0] + ([sep] + Join(parts[1..], sep))
  }

  lemma SplitStep(s: bytes, sep: byte)
    ensures var k := IndexOf(s, sep);
            if k < 0 then SplitOn(s, sep) == [s]
            else s == s[..k] + [sep] + s[k + 1..] && SplitOn(s, sep) == [s[..k]] + SplitOn(s[k + 1..], sep)
  {}

  lemma JoinOne(part: bytes, sep: byte)
    ensures Join([part], sep) == part
  {}

  lemma JoinCons(part: bytes, parts: seq<bytes>, sep: byte)
    requires parts != []
    ensures Join([part] + parts, sep) == part + [sep] + Join(parts, sep)
  {
    assert ([part] + parts)[1..] == parts;
  }

  /** Splitting is the one way to take a text apart at every separator. */
  lemma {:induction false} SplitJoins(s: bytes, sep: byte)
    ensures Join(SplitOn(s, sep), sep) == s
    ensures forall i :: 0 <= i < |SplitOn(s, sep)| ==> sep !in SplitOn(s, sep)[i]
    decreases |s|
  {
    hide SplitOn, Join;
    var k := IndexOf(s, sep);
    SplitStep(s, sep);
    if k < 0 {
      assert Join([s], sep) == s by { JoinOne(s, sep); }
    } else {
      var rest := s[k + 1..];
      SplitJoins(rest, sep);
      JoinCons(s[..k], SplitOn(rest, sep), sep);
    }
  }

  /** An index that holds `c` and has no earlier `c` is the one `IndexOf` reports. */
  lemma IndexOfIs(s: bytes, c: byte, k: nat)
    requires k < |s| && s[k] == c && forall i :: 0 <= i < k ==> s[i] != c
    ensures IndexOf(s, c) == k
  {}

  /** A word followed by a byte it does not hold is cut off at that byte. */
  lemma WordCut(word: bytes, c: byte, rest: bytes)
    requires c !in word
    ensures var s := word + [c] + rest;
            IndexOf(s, c) == |word| && s[..|word|] == word && s[|word| + 1..] == rest
  {
    hide IndexOf;
    IndexOfIs(word + [c] + rest, c, |word|);
  }

  lemma {:induction false} JoinSplits(parts: seq<bytes>, sep: byte)
    requires parts != [] && forall i :: 0 <= i < |parts| ==> sep !in parts[i]
    ensures SplitOn(Join(parts, sep), sep) == parts
  {
    hide SplitOn, Join, IndexOf;
    var part, rest := parts[0], parts[1..];
    assert parts == [part] + rest && sep !in part;
    if rest == [] {
      assert parts == [part];
      JoinOne(part, sep);
      SplitStep(part, sep);
    } else {
      JoinSplits(rest, sep);
      JoinCons(part, rest, sep);
      WordCut(part, sep, Join(rest, sep));
      SplitStep(Join(parts, sep), sep);
    }
  }

  /** What a C function sees of a buffer: everything before the first NUL. */
  function CStr(s: bytes): (t: bytes)
    ensures NUL !in t && t <= s
    ensures NUL !in s ==> t == s
  {
    var k := IndexOf(s, NUL);
    if k < 0 then s else s[..k]
  }

  /** `strstr(s, part) != NULL`. */
  predicate Contains(s: bytes, part: bytes) {
    part <= s || (s != [] && Contains(s[1..], part))
  }

  predicate StandsAt(s: bytes, part: bytes, i: int) { 0 <= i <= |s| - |part| && s[i..i + |part|] == part }

  lemma StandsBehind(s: bytes, part: bytes, i: int)
    requires s != []
    ensures StandsAt(s, part, i + 1) && i >= 0 <==> StandsAt(s[1..], part, i)
  {
    if 0 <= i <= |s| - 1 - |part| {
      assert s[1..][i..i + |part|] == s[i + 1..i + 1 + |part|];
    }
  }

  lemma StandsRange(s: bytes, part: bytes, i: int)
    requires StandsAt(s, part, i)
    ensures 0 <= i && (i > 0 ==> s != [])
  {}

  lemma StandsFirst(s: bytes, part: bytes)
    ensures StandsAt(s, part, 0) <==> part <= s
  {
    if |part| <= |s| {
      assert s[0..0 + |part|] == s[..|part|];
    }
  }

  lemma {:induction false} ContainsMeaning(s: bytes, part: bytes)
    ensures Contains(s, part) <==> exists i :: StandsAt(s, part, i)
  {
    hide StandsAt;
    StandsFirst(s, part);
    if s != [] {
      ContainsMeaning(s[1..], part);
      forall i ensures StandsAt(s, part, i + 1) && i >= 0 <==> StandsAt(s[1..], part, i) {
        StandsBehind(s, part, i);
      }
      if exists i :: StandsAt(s[1..], part, i) {
        var i :| StandsAt(s[1..], part, i);
        assert StandsAt(s, part, i + 1);
      }
    }
    forall i | StandsAt(s, part, i) ensures Contains(s, part) {
      StandsRange(s, part, i);
      if i > 0 {
        assert StandsAt(s[1..], part, i - 1) by { StandsBehind(s, part, i - 1); }
      }
    }
  }

  /** The header names and tokens the code compares with are plain C strings. */
  lemma LiteralsAreCStrings()
    ensures CStr(TRANSFER_ENCODING) == TRANSFER_ENCODING
    ensures CStr(CONTENT_LENGTH) == CONTENT_LENGTH
    ensures CStr(CONNECTION) == CONNECTION
  {
    assert NUL !in TRANSFER_ENCODING;
    assert NUL !in CONTENT_LENGTH;
    assert NUL !in CONNECTION;
  }

  // ------------------------------------------------- case-insensitive compare

  function Lower(c: byte): byte {
    if 65 <= c <= 90 then c + 32 else c
  }

  predicate EqualCI(a: bytes, b: bytes) {
    |a| == |b| && forall i :: 0 <= i < |a| ==> Lower(a[i]) == Lower(b[i])
  }

  lemma CStrStep(s: bytes, i: nat)
    requires i <= |CStr(s)|
    ensures i <= |s|
    ensures i < |CStr(s)| <==> i < |s| && s[i] != NUL
    ensures i < |CStr(s)| ==> CStr(s)[i] == s[i]
  {
    var k := IndexOf(s, NUL);
    assert k >= 0 ==> CStr(s) == s[..k];
  }

  /** Two bytes that are the same letter in either case, or the same byte. */
  predicate SameLetter(c: byte, d: byte) {
    c == d || (65 <= c <= 90 && d == c + 32) || (97 <= c <= 122 && d == c - 32)
  }

  lemma LowerMeaning(c: byte, d: byte)
    ensures Lower(c) == Lower(d) <==> SameLetter(c, d)
  {}

  /** One text is the other in another spelling of the case of its letters. */
  predicate Respelled(a: bytes, b: bytes) {
    |a| == |b| && forall i :: 0 <= i < |a| ==> SameLetter(a[i], b[i])
  }

  /** The comparison ignores exactly the case of the ASCII letters. */
  lemma EqualCIMeaning(a: bytes, b: bytes)
    ensures EqualCI(a, b) <==> Respelled(a, b)
  {
    forall c: byte, d: byte ensures Lower(c) == Lower(d) <==> SameLetter(c, d) {
      LowerMeaning(c, d);
    }
  }

  /** `header_name_equal`: a C-string walk that stops at the first NUL of either side. */
  method HeaderNameEqual(a: bytes, b: bytes) returns (same: bool)
    ensures same == EqualCI(CStr(a), CStr(b))
  {
    ghost var ca, cb := CStr(a), CStr(b);
    var i := 0;
    while i < |a| && a[i] != NUL && i < |b| && b[i] != NUL
      invariant 0 <= i <= |ca| && i <= |cb|
      invariant forall j :: 0 <= j < i ==> Lower(ca[j]) == Lower(cb[j])
    {
      CStrStep(a, i);
      CStrStep(b, i);
      if Lower(a[i]) != Lower(b[i]) {
        return false;
      }
      i := i + 1;
    }
    CStrStep(a, i);
    CStrStep(b, i);
    same := (i == |a| || a[i] == NUL) && (i == |b| || b[i] == NUL);
  }

  // --------------------------------------------------- optional whitespace

  predicate Ows(c: byte) { c == SP || c == TAB }

  predicate Trimmed(s: bytes) {
    s == [] || (!Ows(s[0]) && !Ows(s[|s| - 1]))
  }

  /** `skip_ows`. */
  function TrimStart(s: bytes): (t: bytes)
    ensures |t| <= |s| && t == s[|s| - |t|..]
    ensures t == [] || !Ows(t[0])
    ensures forall i :: 0 <= i < |s| - |t| ==> Ows(s[i])
  {
    if s != [] && Ows(s[0]) then TrimStart(s[1..]) else s
  }

  /** `trim_ows_end`. */
  function TrimEnd(s: bytes): (t: bytes)
    ensures t <= s
    ensures t == [] || !Ows(t[|t| - 1])
    ensures forall i :: |t| <= i < |s| ==> Ows(s[i])
  {
    if s != [] && Ows(s[|s| - 1]) then TrimEnd(s[..|s| - 1]) else s
  }

  function Trim(s: bytes): (t: bytes)
    ensures Trimmed(t)
    ensures forall c :: c in t ==> c in s
  {
    TrimEnd(TrimStart(s))
  }

  /** Trimming removes exactly the surrounding whitespace of an already trimmed core. */
  lemma TrimCore(pad: bytes, core: bytes)
    requires forall i :: 0 <= i < |pad| ==> Ows(pad[i])
    requires Trimmed(core)
    ensures Trim(pad + core) == core
  {
    var s := pad + core;
    var t := TrimStart(s);
    assert forall i :: 0 <= i < |pad| ==> Ows(s[i]);
    assert core != [] ==> s[|pad|] == core[0];
    assert t != [] ==> t[0] == s[|s| - |t|];
    assert t == core;
  }

  // --------------------------------------------------------- decimal numerals

  predicate Digit(c: byte) { 48 <= c <= 57 }

  predicate AllDigits(s: bytes) {
    forall i :: 0 <= i < |s| ==> Digit(s[i])
  }

  /** The number a digit string denotes (`strtoull` in base 10, before its range check). */
  function Value(s: bytes): nat
    requires AllDigits(s)
  {
    if s == [] then 0 else 10 * Value(s[..|s| - 1]) + (s[|s| - 1] as int - 48)
  }

  /** `%zu` / `%d` printing of a non-negative number. */
  function Decimal(n: nat): (s: bytes)
    ensures AllDigits(s) && s != []
  {
    if n < 10 then [(48 + n) as byte] else Decimal(n / 10) + [(48 + n % 10) as byte]
  }

  lemma {:induction false} DecimalValue(n: nat)
    ensures Value(Decimal(n)) == n
  {
    var s := Decimal(n);
    if n >= 10 {
      DecimalValue(n / 10);
      assert s[..|s| - 1] == Decimal(n / 10);
    }
  }

  lemma DigitsAreTrimmed(s: bytes)
    requires AllDigits(s)
    ensures Trimmed(s) && NUL !in s && LF !in s
  {}

  /** A numeral without leading zeros is the printed form of the number it denotes. */
  lemma {:induction false} ValueDecimal(s: bytes)
    requires s != [] && AllDigits(s) && (|s| == 1 || s[0] != 48)
    ensures Decimal(Value(s)) == s
    ensures |s| > 1 ==> Value(s) >= 10
  {
    var front, last := s[..|s| - 1], s[|s| - 1];
    assert s == front + [last];
    if front == [] {
      assert Value(front) == 0;
    } else {
      ValueDecimal(front);
      assert Value(front) >= 1 by {
        if |front| == 1 {
          assert Value(front[..0]) == 0;
        }
      }
    }
  }
}
