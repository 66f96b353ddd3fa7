/** From a request target to path bytes: query stripping and one-pass percent decoding. */
module UrlDecode {
  import opened Bytes

  const PERCENT: byte := 37
  const HASH: byte := 35

  datatype PathError = BadTarget | Forbidden

  // ------------------------------------------------------------ path portion

  predicate EndsPath(c: byte) { c == QUESTION || c == HASH }

  /** `path` is everything in front of the query and the fragment. */
  predicate IsPathPart(target: bytes, path: bytes) {
    && path <= target
    && (forall i :: 0 <= i < |path| ==> !EndsPath(path[i]))
    && (|path| < |target| ==> EndsPath(target[|path|]))
  }

  function PathEnd(target: bytes, i: nat): (k: nat)
    requires i <= |target|
    ensures i <= k <= |target| && (k < |target| ==> EndsPath(target[k]))
    ensures forall j :: i <= j < k ==> !EndsPath(target[j])
    decreases |target| - i
  {
    if i == |target| || EndsPath(target[i]) then i else PathEnd(target, i + 1)
  }

  function PathPart(target: bytes): (path: bytes)
    ensures IsPathPart(target, path)
  {
    target[..PathEnd(target, 0)]
  }

  lemma PathPartUnique(target: bytes, path: bytes)
    requires IsPathPart(target, path)
    ensures path == PathPart(target)
  {
    assert |path| == PathEnd(target, 0);
  }

  /** `static_files_extract_path`. */
  method ExtractPath(target: bytes) returns (r: Result<bytes, PathError>)
    requires NUL !in target
    ensures r == if target == [] || target[0] != SLASH then Err(BadTarget) else Ok(PathPart(target))
  {
    if target == [] || target[0] != SLASH {
      return Err(BadTarget);
    }
    var end := 0;
    while end < |target| && target[end] != QUESTION && target[end] != HASH
      invariant end <= |target|
      invariant forall i :: 0 <= i < end ==> !EndsPath(target[i])
    {
      end := end + 1;
    }
    PathPartUnique(target, target[..end]);
    return Ok(target[..end]);
  }

  // -------------------------------------------------------------- hex digits

  /** `hex_value`; -1 for what is not a hexadecimal digit. */
  function HexValue(c: byte): (v: int)
    ensures -1 <= v < 16
  {
    if 48 <= c <= 57 then c as int - 48
    else if 97 <= c <= 102 then c as int - 97 + 10
    else if 65 <= c <= 70 then c as int - 65 + 10
    else -1
  }

  predicate IsHex(c: byte) { HexValue(c) >= 0 }

  function Unescape(hi: byte, lo: byte): byte
    requires IsHex(hi) && IsHex(lo)
  {
    (HexValue(hi) * 16 + HexValue(lo)) as byte
  }

  /** The sixteen digits in their order, with small and with capital letters. */
  const SMALL_DIGITS: string := "0123456789abcdef"
  const CAPITAL_DIGITS: string := "0123456789ABCDEF"

  /** The byte is the digit at position `v` of one of the two rows. */
  predicate DigitAt(c: byte, v: int) {
    0 <= v < 16 && (c as int == SMALL_DIGITS[v] as int || c as int == CAPITAL_DIGITS[v] as int)
  }

  lemma SmallDigits(v: int)
    requires 0 <= v < 16
    ensures SMALL_DIGITS[v] as int == if v < 10 then 48 + v else 87 + v
  {
    assert v == 0 || v == 1 || v == 2 || v == 3 || v == 4 || v == 5 || v == 6 || v == 7 ||
           v == 8 || v == 9 || v == 10 || v == 11 || v == 12 || v == 13 || v == 14 || v == 15;
  }

  lemma CapitalDigits(v: int)
    requires 0 <= v < 16
    ensures CAPITAL_DIGITS[v] as int == if v < 10 then 48 + v else 55 + v
  {
    assert v == 0 || v == 1 || v == 2 || v == 3 || v == 4 || v == 5 || v == 6 || v == 7 ||
           v == 8 || v == 9 || v == 10 || v == 11 || v == 12 || v == 13 || v == 14 || v == 15;
  }

  lemma HexMeaning(c: byte, v: int)
    ensures HexValue(c) == v && v >= 0 <==> DigitAt(c, v)
  {
    if 0 <= v < 16 {
      SmallDigits(v);
      CapitalDigits(v);
    }
  }

  /** A hexadecimal digit, the letters in either case. */
  function HexDigit(v: nat, upper: bool): (c: byte)
    requires v < 16
    ensures DigitAt(c, v)
  {
    SmallDigits(v); CapitalDigits(v);
    if upper then CAPITAL_DIGITS[v] as int as byte else SMALL_DIGITS[v] as int as byte
  }

  /** The two bytes are the hexadecimal digits of `b`. */
  predicate HexPair(hi: byte, lo: byte, b: byte) { DigitAt(hi, b as int / 16) && DigitAt(lo, b as int % 16) }

  lemma HexPairMeaning(hi: byte, lo: byte, b: byte)
    ensures HexPair(hi, lo, b) <==> IsHex(hi) && IsHex(lo) && Unescape(hi, lo) == b
  {
    hide DigitAt, HexValue;
    HexMeaning(hi, b as int / 16);
    HexMeaning(lo, b as int % 16);
  }

  // ------------------------------------------------------------ the decoding

  function Glue(front: bytes, r: Option<bytes>): Option<bytes> {
    if r.None? then None else Some(front + r.value)
  }

  /** One pass over the text: what is decoded is never looked at again. */
  function Decode(s: bytes): Option<bytes>
    decreases |s|
  {
    if s == [] then Some([])
    else if s[0] != PERCENT then Glue([s[0]], Decode(s[1..]))
    else if |s| < 3 || !IsHex(s[1]) || !IsHex(s[2]) || Unescape(s[1], s[2]) == NUL then None
    else Glue([Unescape(s[1], s[2])], Decode(s[3..]))
  }

  lemma GlueTwice(a: bytes, b: bytes, r: Option<bytes>)
    ensures Glue(a, Glue(b, r)) == Glue(a + b, r)
  {
    if r.Some? {
      assert a + (b + r.value) == a + b + r.value;
    }
  }

  /** What one round of the decoding loop does to the text still to be read. */
  lemma DecodeStep(s: bytes, i: nat)
    requires i < |s|
    ensures var c, rest := s[i], s[i..];
            if c != PERCENT then Decode(rest) == Glue([c], Decode(s[i + 1..]))
            else if i + 2 >= |s| || !IsHex(s[i + 1]) || !IsHex(s[i + 2]) || Unescape(s[i + 1], s[i + 2]) == NUL then
              Decode(rest) == None
            else Decode(rest) == Glue([Unescape(s[i + 1], s[i + 2])], Decode(s[i + 3..]))
  {
    hide IsHex, Unescape, Glue;
    var rest := s[i..];
    assert rest[1..] == s[i + 1..];
    if i + 2 < |s| {
      assert rest[1] == s[i + 1] && rest[2] == s[i + 2];
      assert rest[3..] == s[i + 3..];
    }
  }

  lemma GlueNothing(r: Option<bytes>)
    ensures Glue([], r) == r
  {
    if r.Some? {
      assert [] + r.value == r.value;
    }
  }

  lemma EndOfText(s: bytes)
    requires s == []
    ensures Decode(s) == Some([])
  {}

  /** `static_files_url_decode`. */
  method DecodeUrl(input: bytes) returns (r: Result<bytes, PathError>)
    requires NUL !in input
    ensures r == match Decode(input) case None => Err(BadTarget) case Some(v) => Ok(v)
  {
    hide Decode, IsHex, Unescape;
    var out := new byte[|input| + 1];
    var i, oi := 0, 0;
    ghost var goal := Decode(input);
    assert input[0..] == input;
    GlueNothing(goal);
    while i < |input|
      invariant oi <= i <= |input|
      invariant goal == Glue(out[..oi], Decode(input[i..]))
    {
      var c := input[i];
      DecodeStep(input, i);
      ghost var done := out[..oi];
      if c == PERCENT {
        if i + 2 >= |input| || !IsHex(input[i + 1]) || !IsHex(input[i + 2]) {
          return Err(BadTarget);
        }
        var decoded := Unescape(input[i + 1], input[i + 2]);
        if decoded == NUL {
          return Err(BadTarget);
        }
        out[oi] := decoded;
        GlueTwice(done, [decoded], Decode(input[i + 3..]));
        i := i + 3;
      } else {
        out[oi] := c;
        GlueTwice(done, [c], Decode(input[i + 1..]));
        i := i + 1;
      }
      oi := oi + 1;
      assert out[..oi] == done + [out[oi - 1]];
    }
    EndOfText(input[i..]);
    assert out[..oi] + [] == out[..oi];
    return Ok(out[..oi]);
  }

  // --------------------------------------------------------- what it accepts

  /** The grammar of an encoded path: plain bytes and escapes, each standing for one byte. */
  datatype Unit = Plain(b: byte) | Escape(hi: byte, lo: byte, b: byte)

  predicate GoodUnit(u: Unit) {
    match u
    case Plain(b) => b != PERCENT
    case Escape(hi, lo, b) => HexPair(hi, lo, b) && b != NUL
  }

  predicate GoodUnits(us: seq<Unit>) { forall i :: 0 <= i < |us| ==> GoodUnit(us[i]) }

  function Text(us: seq<Unit>): bytes {
    if us == [] then []
    else match us[0]
      case Plain(b) => [b] + Text(us[1..])
      case Escape(hi, lo, _) => [PERCENT, hi, lo] + Text(us[1..])
  }

  function Meaning(us: seq<Unit>): (m: bytes)
    ensures |m| == |us|
  {
    seq(|us|, i requires 0 <= i < |us| => us[i].b)
  }

  lemma MeaningStep(us: seq<Unit>)
    requires us != []
    ensures Meaning(us) == [us[0].b] + Meaning(us[1..])
  {}

  /** Decoding takes the first unit off the front. */
  lemma UnitDecodes(u: Unit, rest: bytes)
    requires GoodUnit(u)
    ensures u.Plain? ==> Decode([u.b] + rest) == Glue([u.b], Decode(rest))
    ensures u.Escape? ==> Decode([PERCENT, u.hi, u.lo] + rest) == Glue([u.b], Decode(rest))
  {
    hide IsHex, Unescape, HexPair, Glue;
    match u {
      case Plain(b) => assert ([b] + rest)[1..] == rest;
      case Escape(hi, lo, b) =>
        HexPairMeaning(hi, lo, b);
        assert ([PERCENT, hi, lo] + rest)[3..] == rest;
    }
  }

  lemma {:induction false} TextDecodes(us: seq<Unit>)
    requires GoodUnits(us)
    ensures Decode(Text(us)) == Some(Meaning(us))
  {
    hide GoodUnit, Decode, Meaning;
    if us == [] {
      EndOfText(Text(us));
      assert Meaning(us) == [] by { assert |Meaning(us)| == 0; }
    } else {
      TextDecodes(us[1..]);
      UnitDecodes(us[0], Text(us[1..]));
      MeaningStep(us);
    }
  }

  /** The first unit of an accepted text. */
  lemma FirstUnit(s: bytes) returns (u: Unit, rest: bytes)
    requires s != [] && Decode(s).Some?
    ensures |rest| < |s| && GoodUnit(u) && Decode(s) == Glue([u.b], Decode(rest))
    ensures s == (if u.Plain? then [u.b] else [PERCENT, u.hi, u.lo]) + rest
  {
    hide IsHex, Unescape, HexPair, Glue;
    if s[0] != PERCENT {
      u, rest := Plain(s[0]), s[1..];
    } else {
      u, rest := Escape(s[1], s[2], Unescape(s[1], s[2])), s[3..];
      HexPairMeaning(u.hi, u.lo, u.b);
    }
  }

  lemma {:induction false} AcceptedHasUnits(s: bytes) returns (us: seq<Unit>)
    requires Decode(s).Some?
    ensures GoodUnits(us) && Text(us) == s && Meaning(us) == Decode(s).value
    decreases |s|
  {
    hide GoodUnit, Decode, Meaning;
    if s == [] {
      EndOfText(s);
      us := [];
      assert Meaning(us) == [] by { assert |Meaning(us)| == 0; }
    } else {
      var u, rest := FirstUnit(s);
      var more := AcceptedHasUnits(rest);
      us := [u] + more;
      assert us[1..] == more;
      MeaningStep(us);
    }
  }

  /** Decoding accepts exactly the texts of the grammar and gives their meaning. */
  lemma DecodeMeaning(s: bytes, v: bytes)
    ensures Decode(s) == Some(v) <==> exists us :: GoodUnits(us) && Text(us) == s && Meaning(us) == v
  {
    hide Decode, GoodUnits, Text, Meaning;
    if Decode(s) == Some(v) {
      var us := AcceptedHasUnits(s);
    }
    forall us | GoodUnits(us) && Text(us) == s && Meaning(us) == v
      ensures Decode(s) == Some(v)
    {
      TextDecodes(us);
    }
  }

  lemma DecodeOne(hi: byte, lo: byte, b: byte)
    ensures Decode([PERCENT, hi, lo]) == Some([b]) <==> b != NUL && HexPair(hi, lo, b)
  {
    hide HexPair, IsHex, Unescape;
    var s := [PERCENT, hi, lo];
    EndOfText(s[3..]);
    HexPairMeaning(hi, lo, b);
    if IsHex(hi) && IsHex(lo) {
      var d := Unescape(hi, lo);
      assert d != NUL ==> Decode(s) == Glue([d], Some([]));
      assert [d] + [] == [d];
      assert [d][0] == [b][0] <==> [d] == [b];
    }
  }

  lemma HexPairIs(hi: byte, lo: byte, b: byte, i: int, j: int)
    requires DigitAt(hi, i) && DigitAt(lo, j) && 16 * i + j == b as int
    ensures HexPair(hi, lo, b)
  {
    assert 0 <= i < 16 && 0 <= j < 16;
    hide DigitAt;
    assert i == b as int / 16 && j == b as int % 16;
  }

  /** `%` and two bytes decode to `b` exactly when the bytes stand at positions `i` and `j` among the
      digits, `16 * i + j` is `b`, and `b` is not zero. */
  lemma EscapeMeaning(hi: byte, lo: byte, b: byte)
    ensures Decode([PERCENT, hi, lo]) == Some([b]) <==>
              b != NUL && exists i, j :: DigitAt(hi, i) && DigitAt(lo, j) && 16 * i + j == b as int
  {
    hide Decode, DigitAt;
    DecodeOne(hi, lo, b);
    if HexPair(hi, lo, b) {
      var i, j := b as int / 16, b as int % 16;
      assert DigitAt(hi, i) && DigitAt(lo, j) && 16 * i + j == b as int;
    }
    forall i, j | DigitAt(hi, i) && DigitAt(lo, j) && 16 * i + j == b as int ensures HexPair(hi, lo, b) {
      HexPairIs(hi, lo, b, i, j);
    }
  }

  // -------------------------------------------------------------- round trip

  /** How a client writes one byte: as it is, or as an escape with each digit in either letter case. */
  datatype Style = AsIs | Hex(upperHi: bool, upperLo: bool)

  function Write(b: byte, style: Style): Unit {
    match style
    case AsIs => Plain(b)
    case Hex(hi, lo) => Escape(HexDigit(b as int / 16, hi), HexDigit(b as int % 16, lo), b)
  }

  function Units(x: bytes, styles: seq<Style>): seq<Unit>
    requires |styles| == |x|
  {
    seq(|x|, i requires 0 <= i < |x| => Write(x[i], styles[i]))
  }

  /** The percent sign itself must be escaped; NUL cannot be written. */
  predicate Writable(x: bytes, styles: seq<Style>) {
    && |styles| == |x| && NUL !in x
    && forall i :: 0 <= i < |x| && x[i] == PERCENT ==> styles[i].Hex?
  }

  /** Every NUL-free byte string survives any encoding that escapes `%`. With nothing else escaped, an
      escaped `%` comes back as a plain `%` that is not decoded again. */
  lemma UrlRoundTrip(x: bytes, styles: seq<Style>)
    requires Writable(x, styles)
    ensures Decode(Text(Units(x, styles))) == Some(x)
  {
    hide Decode, Text, HexDigit, DigitAt;
    var us := Units(x, styles);
    forall i | 0 <= i < |us| ensures GoodUnit(us[i]) {
      assert x[i] in x;
    }
    assert Meaning(us) == x;
    TextDecodes(us);
  }

  lemma {:induction false} DecodedIsCString(s: bytes)
    requires NUL !in s && Decode(s).Some?
    ensures NUL !in Decode(s).value && |Decode(s).value| <= |s|
    decreases |s|
  {
    hide IsHex, Unescape;
    if s != [] {
      DecodedIsCString(if s[0] != PERCENT then s[1..] else s[3..]);
    }
  }
}
