/** Connection persistence: the token scanner, the keep-alive decision and the response policy. */
module Persistence {
  import opened Bytes
  import opened Lines
  import opened Parser

  // ------------------------------------------------------------ comma lists

  /** Some element of the comma list, trimmed, is the token in any letter case. */
  predicate HasToken(s: bytes, token: bytes) {
    exists i :: 0 <= i < |SplitOn(s, COMMA)| && EqualCI(Trim(SplitOn(s, COMMA)[i]), token)
  }

  lemma HasTokenStep(s: bytes, token: bytes)
    ensures var k := IndexOf(s, COMMA);
            if k < 0 then HasToken(s, token) <==> EqualCI(Trim(s), token)
            else HasToken(s, token) <==> EqualCI(Trim(s[..k]), token) || HasToken(s[k + 1..], token)
  {
    hide EqualCI, Trim;
    var k, parts := IndexOf(s, COMMA), SplitOn(s, COMMA);
    if k < 0 {
      assert parts == [s];
      assert parts[0] == s;
    } else {
      var more := SplitOn(s[k + 1..], COMMA);
      assert parts == [s[..k]] + more;
      assert parts[0] == s[..k];
      assert forall i :: 0 <= i < |more| ==> parts[i + 1] == more[i];
      assert forall i :: 0 < i < |parts| ==> parts[i] == more[i - 1];
    }
  }

  lemma TrimBlank(s: bytes)
    requires s != [] && Ows(s[0])
    ensures Trim(s) == Trim(s[1..])
  {}

  lemma HasTokenAt(s: bytes, front: bytes, back: bytes, token: bytes)
    requires COMMA !in front && s == front + [COMMA] + back
    ensures HasToken(s, token) <==> EqualCI(Trim(front), token) || HasToken(back, token)
  {
    hide HasToken, EqualCI, Trim;
    IndexOfIs(s, COMMA, |front|);
    HasTokenStep(s, token);
    assert s[..|front|] == front;
    assert s[|front| + 1..] == back;
  }

  /** A blank in front of the list changes nothing. */
  lemma SkipBlank(s: bytes, token: bytes)
    requires s != [] && Ows(s[0])
    ensures HasToken(s, token) <==> HasToken(s[1..], token)
  {
    hide HasToken, EqualCI, Trim;
    var rest := s[1..];
    var k := IndexOf(rest, COMMA);
    assert s == [s[0]] + rest;
    if k < 0 {
      assert COMMA !in s;
      HasTokenStep(s, token);
      HasTokenStep(rest, token);
      TrimBlank(s);
    } else {
      var front, back := rest[..k], rest[k + 1..];
      HasTokenAt(rest, front, back, token);
      assert rest == front + [COMMA] + back;
      assert s == ([s[0]] + front) + [COMMA] + back;
      HasTokenAt(s, [s[0]] + front, back, token);
      TrimBlank([s[0]] + front);
      assert ([s[0]] + front)[1..] == front;
    }
  }

  lemma NothingMatches(token: bytes)
    requires token != []
    ensures TrimEnd([]) == [] && !EqualCI([], token)
  {}

  /** The element at the front of a list that does not start with a blank. */
  lemma FrontElement(body: bytes, token: bytes)
    requires token != [] && (body == [] || !Ows(body[0]))
    ensures var k := IndexOf(body, COMMA);
            HasToken(body, token) <==>
              if body == [] then false
              else if k < 0 then EqualCI(TrimEnd(body), token)
              else EqualCI(TrimEnd(body[..k]), token) || HasToken(body[k + 1..], token)
  {
    hide HasToken, EqualCI;
    HasTokenStep(body, token);
    NothingMatches(token);
  }

  /** The first loop of the scanner: leading blanks change nothing. */
  method SkipOws(value: bytes, p: nat, ghost token: bytes) returns (q: nat)
    requires p <= |value|
    ensures p <= q <= |value| && (q < |value| ==> !Ows(value[q]))
    ensures HasToken(value[p..], token) == HasToken(value[q..], token)
  {
    hide HasToken;
    q := p;
    while q < |value| && Ows(value[q])
      invariant p <= q <= |value|
      invariant HasToken(value[p..], token) == HasToken(value[q..], token)
    {
      var next := q + 1;
      assert value[q..][1..] == value[next..];
      SkipBlank(value[q..], token);
      q := next;
    }
  }

  /** The second loop: the next comma, or the end. */
  method FindComma(value: bytes, start: nat) returns (q: nat)
    requires start <= |value|
    ensures start <= q <= |value| && COMMA !in value[start..q] && (q < |value| ==> value[q] == COMMA)
  {
    q := start;
    while q < |value| && value[q] != COMMA
      invariant start <= q <= |value| && COMMA !in value[start..q]
    {
      assert value[start..q + 1] == value[start..q] + [value[q]];
      q := q + 1;
    }
  }

  lemma DropOne(s: bytes)
    requires s != [] && Ows(s[|s| - 1])
    ensures TrimEnd(s) == TrimEnd(s[..|s| - 1])
  {}

  lemma NothingToDrop(s: bytes)
    requires s == [] || !Ows(s[|s| - 1])
    ensures TrimEnd(s) == s
  {}

  /** The third loop: trailing blanks are cut off. */
  method DropOws(value: bytes, start: nat, stop: nat) returns (end: nat)
    requires start <= stop <= |value|
    ensures start <= end <= stop && value[start..end] == TrimEnd(value[start..stop])
  {
    hide TrimEnd;
    end := stop;
    while end > start && Ows(value[end - 1])
      invariant start <= end <= stop && TrimEnd(value[start..end]) == TrimEnd(value[start..stop])
    {
      var shorter := end - 1;
      DropOne(value[start..end]);
      assert value[start..end][..shorter - start] == value[start..shorter];
      end := shorter;
    }
    NothingToDrop(value[start..end]);
  }

  /** The list from an element on: that element has the token, or the rest behind its comma has. */
  lemma ElementStep(s: bytes, word: bytes, rest: bytes, token: bytes)
    requires token != [] && s != [] && !Ows(s[0]) && COMMA !in word
    requires s == word || s == word + ([COMMA] + rest)
    ensures HasToken(s, token) <==>
              EqualCI(TrimEnd(word), token) || (s != word && HasToken(rest, token))
  {
    hide HasToken, EqualCI, TrimEnd, IndexOf;
    FrontElement(s, token);
    if s != word {
      IndexOfIs(s, COMMA, |word|);
      assert s[..|word|] == word && s[|word| + 1..] == rest;
    }
  }

  lemma EmptyHasNone(token: bytes)
    requires token != []
    ensures !HasToken([], token)
  {
    HasTokenStep([], token);
  }

  lemma ListFrom(value: bytes, start: nat, stop: nat, next: nat, token: bytes)
    requires start < |value| && start <= stop <= |value| && !Ows(value[start]) && token != []
    requires COMMA !in value[start..stop] && (stop < |value| ==> value[stop] == COMMA)
    requires next == if stop < |value| then stop + 1 else stop
    ensures start < next
    ensures HasToken(value[start..], token) <==>
              EqualCI(TrimEnd(value[start..stop]), token) || HasToken(value[next..], token)
  {
    hide HasToken, EqualCI, TrimEnd;
    var s, word, rest := value[start..], value[start..stop], value[next..];
    EmptyHasNone(token);
    if stop < |value| {
      assert s == word + ([COMMA] + rest);
    } else {
      assert s == word && rest == [];
    }
    ElementStep(s, word, rest, token);
  }

  /** `http_header_value_has_token`. */
  method HeaderValueHasToken(value: bytes, token: bytes) returns (found: bool)
    ensures found <==> token != [] && HasToken(value, token)
  {
    hide HasToken, EqualCI, TrimEnd;
    if token == [] {
      return false;
    }
    EmptyHasNone(token);
    var p := 0;
    ghost var goal := HasToken(value, token);
    assert value[0..] == value;
    while p < |value|
      invariant 0 <= p <= |value|
      invariant goal == HasToken(value[p..], token)
    {
      var start := SkipOws(value, p, token);
      if start == |value| {
        assert value[start..] == [];
        return false;
      }
      var stop := FindComma(value, start);
      var end := DropOws(value, start, stop);
      var next := if stop < |value| then stop + 1 else stop;
      ListFrom(value, start, stop, next, token);
      if EqualCI(value[start..end], token) {
        return true;
      }
      p := next;
    }
    assert value[p..] == [];
    return false;
  }

  // ------------------------------------------------------- the client's wish

  /** `http_request_wants_keep_alive`: only the first Connection field counts. */
  function WantsKeepAlive(r: Request): bool {
    var connection := FirstNamed(r.headers, CONNECTION);
    if connection.Some? && HasToken(connection.value, CLOSE) then false
    else if r.line.version == HTTP_1_1 then true
    else r.line.version == HTTP_1_0 && connection.Some? && HasToken(connection.value, KEEP_ALIVE)
  }

  /** Some Connection field of the list holds the token. */
  ghost predicate ConnectionHas(hs: seq<Header>, token: bytes) {
    exists i :: 0 <= i < |hs| && EqualCI(hs[i].name, CONNECTION) && HasToken(hs[i].value, token)
  }

  /** The first Connection field holds the token. */
  predicate FirstHas(hs: seq<Header>, token: bytes) {
    FirstNamed(hs, CONNECTION).Some? && HasToken(FirstNamed(hs, CONNECTION).value, token)
  }

  /** The wish as section 6.1 of RFC 7230 reads it: repeated Connection fields are one list. */
  ghost predicate CombinedWish(r: Request) {
    && !ConnectionHas(r.headers, CLOSE)
    && (r.line.version == HTTP_1_1 || (r.line.version == HTTP_1_0 && ConnectionHas(r.headers, KEEP_ALIVE)))
  }

  /** A Connection field with another one in front of it. */
  ghost predicate Repeated(hs: seq<Header>, j: int) {
    && 0 <= j < |hs| && EqualCI(hs[j].name, CONNECTION)
    && exists i :: 0 <= i < j && EqualCI(hs[i].name, CONNECTION)
  }

  /** Some Connection field after the first holds the token. */
  ghost predicate LaterHas(hs: seq<Header>, token: bytes) {
    exists j :: Repeated(hs, j) && HasToken(hs[j].value, token)
  }

  /** The token stands in a later Connection field and not in the first. */
  ghost predicate OnlyLater(hs: seq<Header>, token: bytes) {
    !FirstHas(hs, token) && LaterHas(hs, token)
  }

  /** A later Connection field asks for something the first one does not, and it would matter: a close
      that is missed while the first field lets the connection persist, or, with HTTP/1.0, a keep-alive
      that is missed while no field says close. */
  ghost predicate Overlooked(r: Request) {
    var hs := r.headers;
    if r.line.version == HTTP_1_1 || (r.line.version == HTTP_1_0 && FirstHas(hs, KEEP_ALIVE)) then OnlyLater(hs, CLOSE)
    else r.line.version == HTTP_1_0 && OnlyLater(hs, KEEP_ALIVE) && !FirstHas(hs, CLOSE) && !LaterHas(hs, CLOSE)
  }

  lemma Versions()
    ensures HTTP_1_0 != HTTP_1_1
  {
    assert HTTP_1_0[7] != HTTP_1_1[7];
  }

  /** A token in some Connection field is in the first one or in a later one. */
  lemma ConnectionSplits(hs: seq<Header>, token: bytes)
    ensures ConnectionHas(hs, token) <==> FirstHas(hs, token) || LaterHas(hs, token)
  {
    hide HasToken, EqualCI, FirstNamed;
    if ConnectionHas(hs, token) {
      var k :| 0 <= k < |hs| && EqualCI(hs[k].name, CONNECTION) && HasToken(hs[k].value, token);
      if exists i :: 0 <= i < k && EqualCI(hs[i].name, CONNECTION) {
        assert Repeated(hs, k);
      } else {
        FirstNamedAt(hs, CONNECTION, k);
      }
    }
    if FirstHas(hs, token) {
      var i := FirstNamedWhere(hs, CONNECTION);
      FirstNamedAt(hs, CONNECTION, i);
    }
    if LaterHas(hs, token) {
      var j :| Repeated(hs, j) && HasToken(hs[j].value, token);
      assert EqualCI(hs[j].name, CONNECTION);
    }
  }

  /** Reading only the first Connection field gives the wish of all of them, except exactly when a
      later field is overlooked. */
  lemma FirstFieldDecides(r: Request)
    ensures WantsKeepAlive(r) == CombinedWish(r) <==> !Overlooked(r)
  {
    hide HasToken, EqualCI, ConnectionHas, LaterHas, FirstNamed;
    Versions();
    ConnectionSplits(r.headers, CLOSE);
    ConnectionSplits(r.headers, KEEP_ALIVE);
  }

  lemma {:induction false} OneConnectionField(hs: seq<Header>, token: bytes)
    requires CountNamed(hs, CONNECTION) <= 1
    ensures ConnectionHas(hs, token) <==> FirstHas(hs, token)
  {
    hide HasToken, EqualCI, LaterHas;
    ConnectionSplits(hs, token);
    if hs != [] {
      var rest := hs[1..];
      if !EqualCI(hs[0].name, CONNECTION) {
        OneConnectionField(rest, token);
      } else {
        assert FirstNamed(rest, CONNECTION).None?;
      }
      assert forall i :: 1 <= i < |hs| ==> hs[i] == rest[i - 1];
    }
  }

  /** With at most one Connection field the first field is the whole wish. */
  lemma OneFieldIsEnough(r: Request)
    requires CountNamed(r.headers, CONNECTION) <= 1
    ensures WantsKeepAlive(r) == CombinedWish(r)
  {
    hide HasToken, EqualCI, ConnectionHas, FirstNamed, CountNamed;
    OneConnectionField(r.headers, CLOSE);
    OneConnectionField(r.headers, KEEP_ALIVE);
  }

  // ---------------------------------------------------------- response fields

  ghost predicate NoneNamed(hs: seq<Header>, name: bytes) {
    forall i :: 0 <= i < |hs| ==> !EqualCI(hs[i].name, name)
  }

  lemma NoneNamedCount(hs: seq<Header>, name: bytes)
    ensures NoneNamed(hs, name) <==> CountNamed(hs, name) == 0
  {
    assert FirstNamed(hs, name).None? <==> CountNamed(hs, name) == 0;
  }

  /** Moving the last element into a hole removes exactly the element that was there. */
  lemma SwapRemove(hs: seq<Header>, i: nat)
    requires i < |hs|
    ensures multiset(hs[i := hs[|hs| - 1]][..|hs| - 1]) == multiset(hs) - multiset{hs[i]}
  {
    var last := |hs| - 1;
    var a, h, z := hs[..i], hs[i], hs[last];
    if i == last {
      assert hs == a + [h];
      assert hs[i := z][..last] == a;
    } else {
      var m := hs[i + 1..last];
      assert hs == a + [h] + m + [z];
      assert hs[i := z][..last] == a + [z] + m;
    }
  }
}
