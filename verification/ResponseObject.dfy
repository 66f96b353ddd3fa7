/** The response object whose header list is edited in place. */
module ResponseObject {
  import opened Bytes
  import opened Lines
  import opened Printing
  import opened Responses
  import opened Persistence

  /** How often a field other than those named `name` occurs is the same in both lists. */
  ghost predicate OthersKept(a: seq<Header>, b: seq<Header>, name: bytes) {
    forall h: Header :: !EqualCI(h.name, name) ==> multiset(a)[h] == multiset(b)[h]
  }

  lemma MembersStay(hs: seq<Header>, orig: seq<Header>)
    requires multiset(hs) <= multiset(orig)
    ensures forall h :: h in hs ==> h in orig
  {
    forall h | h in hs ensures h in orig {
      assert h in multiset(hs);
      assert h in multiset(orig);
    }
  }

  /** What the removal loop keeps: nothing named before `i`, and no other field touched. */
  ghost predicate Removing(hs: seq<Header>, i: nat, name: bytes, orig: seq<Header>) {
    && i <= |hs| && NoneNamed(hs[..i], name)
    && OthersKept(hs, orig, name) && multiset(hs) <= multiset(orig)
  }

  /** Stored names are C strings, so the walk compares them whole. */
  lemma CStringsCompare(hs: seq<Header>, i: nat, name: bytes, orig: seq<Header>)
    requires Removing(hs, i, name, orig) && i < |hs| && NUL !in name
    requires forall j :: 0 <= j < |orig| ==> NUL !in orig[j].name
    ensures CStr(hs[i].name) == hs[i].name && CStr(name) == name
  {
    MembersStay(hs, orig);
    assert hs[i] in orig;
  }

  /** The list with the last field moved into position `i`. */
  function Dropped(hs: seq<Header>, i: nat): seq<Header>
    requires i < |hs|
  {
    var last := |hs| - 1;
    if i != last then hs[i := hs[last]][..last] else hs[..last]
  }

  lemma RemovingStart(hs: seq<Header>, name: bytes)
    ensures Removing(hs, 0, name, hs)
  {}

  /** Dropping removes exactly the element at `i` and leaves what is before it alone. */
  lemma DroppedIs(hs: seq<Header>, i: nat)
    requires i < |hs|
    ensures |Dropped(hs, i)| == |hs| - 1 && Dropped(hs, i)[..i] == hs[..i]
    ensures multiset(Dropped(hs, i)) == multiset(hs) - multiset{hs[i]}
  {
    var last := |hs| - 1;
    SwapRemove(hs, i);
    if i == last {
      assert hs[i := hs[last]] == hs;
    }
  }

  lemma OthersSurvive(hs: seq<Header>, i: nat, name: bytes, orig: seq<Header>)
    requires i < |hs| && EqualCI(hs[i].name, name) && OthersKept(hs, orig, name)
    ensures OthersKept(Dropped(hs, i), orig, name)
  {
    hide EqualCI, Dropped;
    DroppedIs(hs, i);
  }

  lemma RemovingDrop(hs: seq<Header>, i: nat, name: bytes, orig: seq<Header>)
    requires Removing(hs, i, name, orig) && i < |hs| && EqualCI(hs[i].name, name)
    ensures Removing(Dropped(hs, i), i, name, orig)
  {
    hide EqualCI, Dropped, NoneNamed;
    DroppedIs(hs, i);
    OthersSurvive(hs, i, name, orig);
  }

  lemma RemovingSkip(hs: seq<Header>, i: nat, name: bytes, orig: seq<Header>)
    requires Removing(hs, i, name, orig) && i < |hs| && !EqualCI(hs[i].name, name)
    ensures Removing(hs, i + 1, name, orig)
  {
    hide EqualCI, OthersKept;
    assert hs[..i + 1] == hs[..i] + [hs[i]];
  }

  lemma RemovingDone(hs: seq<Header>, name: bytes, orig: seq<Header>)
    requires Removing(hs, |hs|, name, orig)
    ensures NoneNamed(hs, name) && OthersKept(hs, orig, name) && forall h :: h in hs ==> h in orig
  {
    hide EqualCI, OthersKept;
    assert hs[..|hs|] == hs;
    MembersStay(hs, orig);
  }

  lemma OthersAndOne(others: seq<Header>, orig: seq<Header>, h: Header)
    requires OthersKept(others, orig, CONNECTION) && h.name == CONNECTION
    ensures OthersKept(others + [h], orig, CONNECTION)
  {
    assert EqualCI(CONNECTION, CONNECTION);
  }

  /** The fields a client reads say that the connection will close. */
  ghost predicate SaysClose(fs: seq<Header>) { ConnectionHas(fs, CLOSE) }

  lemma SaysCloseAppend(a: seq<Header>, b: seq<Header>)
    ensures SaysClose(a + b) <==> SaysClose(a) || SaysClose(b)
  {
    hide EqualCI, HasToken;
    var c := a + b;
    assert forall i :: 0 <= i < |a| ==> c[i] == a[i];
    assert forall i :: 0 <= i < |b| ==> c[i + |a|] == b[i];
    assert forall i :: |a| <= i < |c| ==> c[i] == b[i - |a|];
  }

  lemma QuietFields(fs: seq<Header>)
    requires NoneNamed(fs, CONNECTION)
    ensures !SaysClose(fs)
  {
    hide EqualCI, HasToken;
  }

  lemma OneWord(v: bytes, token: bytes)
    requires COMMA !in v && Trimmed(v)
    ensures HasToken(v, token) <==> EqualCI(v, token)
  {
    hide HasToken, EqualCI, Trim, Trimmed;
    HasTokenStep(v, token);
    TrimCore([], v);
    assert [] + v == v;
  }

  lemma NoCommas()
    ensures COMMA !in CLOSE && COMMA !in KEEP_ALIVE
    ensures EqualCI(CLOSE, CLOSE) && !EqualCI(KEEP_ALIVE, CLOSE)
  {}

  lemma TokensOfPolicy()
    ensures HasToken(CLOSE, CLOSE) && !HasToken(KEEP_ALIVE, CLOSE)
  {
    hide HasToken, EqualCI, Clean, Trimmed;
    CloseIsClean();
    NoCommas();
    OneWord(CLOSE, CLOSE);
    OneWord(KEEP_ALIVE, CLOSE);
  }

  lemma OneFieldSays(h: Header)
    requires EqualCI(h.name, CONNECTION)
    ensures SaysClose([h]) <==> HasToken(h.value, CLOSE)
  {
    hide EqualCI, HasToken;
    assert [h][0] == h;
  }

  /** A response with one Connection field says exactly what that field says. */
  lemma ConnectionSays(r: Response, others: seq<Header>, value: bytes)
    requires CountNamed(r.headers, CONTENT_LENGTH) == 0
    requires NoneNamed(others, CONNECTION) && r.headers == others + [Header(CONNECTION, value)]
    ensures CountNamed(r.headers, CONNECTION) == 1 && FirstNamed(r.headers, CONNECTION) == Some(value)
    ensures SaysClose(AllFields(r)) <==> HasToken(value, CLOSE)
  {
    hide EqualCI, HasToken, CountNamed, FirstNamed, AutoFields, SaysClose;
    var h := Header(CONNECTION, value);
    LiteralNames();
    NoneNamedCount(others, CONNECTION);
    CountAppend(others, [h], CONNECTION);
    CountOne(h, CONNECTION);
    FirstNamedAppend(others, [h], CONNECTION);
    FirstOfOne(h, CONNECTION);
    AutoCounts(r);
    NoneNamedCount(AutoFields(r), CONNECTION);
    QuietFields(AutoFields(r));
    QuietFields(others);
    SaysCloseAppend(others, [h]);
    SaysCloseAppend(r.headers, AutoFields(r));
    OneFieldSays(h);
  }

  /** A response without Connection field, and told not to add one, says nothing. */
  lemma SilenceSays(r: Response)
    requires CountNamed(r.headers, CONTENT_LENGTH) == 0
    requires NoneNamed(r.headers, CONNECTION) && r.suppressClose
    ensures !SaysClose(AllFields(r))
  {
    hide EqualCI, HasToken, CountNamed, AutoFields, SaysClose;
    AutoCounts(r);
    NoneNamedCount(AutoFields(r), CONNECTION);
    QuietFields(AutoFields(r));
    QuietFields(r.headers);
    SaysCloseAppend(r.headers, AutoFields(r));
  }

  /** Fewer fields, or one more Connection field, keep a response well built. */
  lemma StaysWellBuilt(r: Response, hs: seq<Header>, others: seq<Header>, suppress: bool)
    requires WellBuilt(r) && forall h :: h in others ==> h in r.headers
    requires hs == others || (exists v :: hs == others + [Header(CONNECTION, v)] && Clean(v) && Trimmed(v))
    ensures WellBuilt(r.(headers := hs, suppressClose := suppress))
  {
    hide EqualCI, CountNamed, WellFormedField, Clean, Trimmed;
    LiteralNames();
    NoneNamedCount(r.headers, CONTENT_LENGTH);
    NoneNamedCount(r.headers, TRANSFER_ENCODING);
    forall i | 0 <= i < |hs|
      ensures WellFormedField(hs[i]) && !EqualCI(hs[i].name, CONTENT_LENGTH) && !EqualCI(hs[i].name, TRANSFER_ENCODING)
    {
      if i < |others| {
        assert hs[i] == others[i] && others[i] in r.headers;
      } else {
        ConnectionFieldGood(hs[i].value);
      }
    }
    NoneNamedCount(hs, CONTENT_LENGTH);
    NoneNamedCount(hs, TRANSFER_ENCODING);
    assert StatusText(r.(headers := hs, suppressClose := suppress)) == StatusText(r);
  }

  lemma PolicyFacts(r: Response)
    requires WellBuilt(r)
    ensures NUL !in CONNECTION && NUL !in CLOSE && NUL !in KEEP_ALIVE
    ensures Clean(CLOSE) && Trimmed(CLOSE) && Clean(KEEP_ALIVE) && Trimmed(KEEP_ALIVE)
    ensures HasToken(CLOSE, CLOSE) && !HasToken(KEEP_ALIVE, CLOSE)
    ensures forall j :: 0 <= j < |r.headers| ==> NUL !in r.headers[j].name
    ensures CountNamed(r.headers, CONTENT_LENGTH) == 0
  {
    hide HasToken, CountNamed, Trimmed;
    CloseIsClean();
    TokensOfPolicy();
  }

  class HttpResponse {
    var status: nat
    var reason: bytes
    var headers: seq<Header>
    var body: Body
    var suppressClose: bool

    ghost function Value(): Response
      reads this
    {
      Response(status, reason, headers, body, suppressClose)
    }

    constructor (r: Response)
      ensures Value() == r
    {
      status, reason, headers, body, suppressClose := r.status, r.reason, r.headers, r.body, r.suppressClose;
    }

    /** `http_response_add_header`: the copies stop at the first NUL. */
    method AddHeader(name: bytes, value: bytes)
      modifies `headers
      ensures headers == old(headers) + [Header(CStr(name), CStr(value))]
    {
      headers := headers + [Header(CStr(name), CStr(value))];
    }

    /** `http_response_remove_header`: the last field moves into each hole. */
    method RemoveHeader(name: bytes) returns (removed: nat)
      requires NUL !in name && forall j :: 0 <= j < |headers| ==> NUL !in headers[j].name
      modifies `headers
      ensures NoneNamed(headers, name)
      ensures OthersKept(headers, old(headers), name)
      ensures |headers| + removed == |old(headers)|
      ensures forall h :: h in headers ==> h in old(headers)
    {
      hide EqualCI, OthersKept, NoneNamed;
      removed := 0;
      var i := 0;
      RemovingStart(headers, name);
      while i < |headers|
        invariant 0 <= i <= |headers| && |headers| + removed == |old(headers)|
        invariant Removing(headers, i, name, old(headers))
        decreases |headers| - i
      {
        CStringsCompare(headers, i, name, old(headers));
        var same := HeaderNameEqual(headers[i].name, name);
        if same {
          RemovingDrop(headers, i, name, old(headers));
          headers := Dropped(headers, i);
          removed := removed + 1;
        } else {
          RemovingSkip(headers, i, name, old(headers));
          i := i + 1;
        }
      }
      RemovingDone(headers, name, old(headers));
    }

    /** `http_response_set_header`: exactly one field of that name remains, the others are kept. */
    method SetHeader(name: bytes, value: bytes)
      requires NUL !in name && NUL !in value && forall j :: 0 <= j < |headers| ==> NUL !in headers[j].name
      modifies `headers
      ensures |headers| > 0
      ensures var others := headers[..|headers| - 1];
              && headers == others + [Header(name, value)]
              && NoneNamed(others, name)
              && OthersKept(others, old(headers), name)
              && forall h :: h in others ==> h in old(headers)
    {
      hide EqualCI, OthersKept, NoneNamed;
      var _ := RemoveHeader(name);
      ghost var others := headers;
      AddHeader(name, value);
      assert headers[..|headers| - 1] == others;
    }

    /** `http_response_apply_connection_policy`: the response says close exactly when the connection
        will not persist, whatever Connection fields it carried before. */
    method ApplyConnectionPolicy(keepAlive: bool, version: bytes)
      requires WellBuilt(Value())
      modifies `headers, `suppressClose
      ensures WellBuilt(Value())
      ensures SaysClose(AllFields(Value())) <==> !keepAlive
      ensures OthersKept(headers, old(headers), CONNECTION)
      ensures keepAlive && version == HTTP_1_0 ==> FirstNamed(headers, CONNECTION) == Some(KEEP_ALIVE)
      ensures keepAlive && version != HTTP_1_0 ==> NoneNamed(headers, CONNECTION)
    {
      hide EqualCI, OthersKept, NoneNamed, SaysClose, HasToken, AllFields, WellBuilt, FirstNamed, CountNamed;
      ghost var before := Value();
      PolicyFacts(before);
      if !keepAlive || version == HTTP_1_0 {
        var value := if keepAlive then KEEP_ALIVE else CLOSE;
        suppressClose := false;
        SetHeader(CONNECTION, value);
        ghost var others := headers[..|headers| - 1];
        StaysWellBuilt(before, headers, others, false);
        OthersAndOne(others, before.headers, Header(CONNECTION, value));
        PolicyFacts(Value());
        ConnectionSays(Value(), others, value);
      } else {
        var _ := RemoveHeader(CONNECTION);
        suppressClose := true;
        StaysWellBuilt(before, headers, headers, true);
        PolicyFacts(Value());
        SilenceSays(Value());
      }
    }
  }
}
