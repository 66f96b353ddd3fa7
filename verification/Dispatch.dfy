/** From a parsed request, or the reason there is none, to a response. */
module Dispatch {
  import opened Bytes
  import opened Lines
  import opened Framing
  import opened Parser
  import opened Printing
  import RoundTrip
  import opened Responses
  import StaticPath

  const API: bytes := [47, 97, 112, 105]  // /api
  const HEALTH_PATH: bytes := [47, 97, 112, 105, 47, 104, 101, 97, 108, 116, 104]  // /api/health
  const ECHO_PATH: bytes := [47, 97, 112, 105, 47, 101, 99, 104, 111]  // /api/echo
  const STATS_PATH: bytes := [47, 97, 112, 105, 47, 115, 116, 97, 116, 115]  // /api/stats
  const ALLOW: bytes := [65, 108, 108, 111, 119]  // Allow
  const GET_AND_HEAD: bytes := [71, 69, 84, 44, 32, 72, 69, 65, 68]  // GET, HEAD
  const OK_REASON: bytes := [79, 75]  // OK
  // application/octet-stream
  const OCTET_STREAM: bytes :=
    [97, 112, 112, 108, 105, 99, 97, 116, 105, 111, 110, 47, 111, 99, 116, 101, 116, 45, 115, 116, 114, 101, 97, 109]

  // ----------------------------------------------------------------- statuses

  /** `status_for_read_result`, for rejected framing. */
  function StatusForRead(e: ParseError): nat {
    match e
    case TooLarge => 413
    case UnsupportedTransferEncoding => 501
    case _ => 400
  }

  /** `status_for_parse_result`, for failures. */
  function StatusForParse(e: ParseError): nat {
    match e
    case UnsupportedMethod => 405
    case UnsupportedVersion => 505
    case TooLarge => 413
    case UnsupportedTransferEncoding => 501
    case _ => 400
  }

  /** `status_requires_close`. */
  predicate RequiresClose(status: nat) {
    status == 400 || status == 408 || status == 413 || status == 501 || status == 505 || status == 500
  }

  /** The errors of the framing pass have the same status from the reader and from the parser; the
      other two have a status of their own, and no other status stands for several errors but 400. */
  lemma StatusesTell(e: ParseError)
    ensures StatusForParse(e) == 405 <==> e.UnsupportedMethod?
    ensures StatusForParse(e) == 505 <==> e.UnsupportedVersion?
    ensures StatusForParse(e) == 413 <==> e.TooLarge?
    ensures StatusForParse(e) == 501 <==> e.UnsupportedTransferEncoding?
    ensures StatusForParse(e) == 400 <==> e.BadRequest? || e.TooManyHeaders? || e.InvalidContentLength?
    ensures StatusForRead(e) == StatusForParse(e) <==> !e.UnsupportedMethod? && !e.UnsupportedVersion?
    ensures e.UnsupportedMethod? || e.UnsupportedVersion? ==> StatusForRead(e) == 400
  {}

  /** A status closes the connection exactly when it answers a timeout, a failure of the server, or input
      whose framing or version leaves the rest of the stream in doubt. */
  lemma ClosingStatuses(status: nat)
    ensures RequiresClose(status) <==>
              || status == 408 || status == 500
              || (exists e :: status == StatusForRead(e))
              || (exists e: ParseError :: !e.UnsupportedMethod? && status == StatusForParse(e))
  {
    assert StatusForRead(BadRequest) == 400 && StatusForRead(TooLarge) == 413;
    assert StatusForRead(UnsupportedTransferEncoding) == 501 && StatusForParse(UnsupportedVersion) == 505;
  }

  /** What the file system makes of a relative path. */
  datatype FileAnswer = Found | Missing | Denied | Unusable | Oversized | Broken

  /** `status_for_static_result`. */
  function StatusForFile(a: FileAnswer): nat {
    match a
    case Found => 200
    case Missing => 404
    case Denied => 403
    case Unusable => 400
    case Oversized => 413
    case Broken => 500
  }

  /** The status tells what became of the file; two of the errors and a failure end the connection. */
  lemma FileStatusesTell(a: FileAnswer)
    ensures StatusForFile(a) == 200 <==> a.Found?
    ensures StatusForFile(a) == 404 <==> a.Missing?
    ensures StatusForFile(a) == 403 <==> a.Denied?
    ensures StatusForFile(a) == StatusForParse(BadRequest) <==> a.Unusable?
    ensures StatusForFile(a) == StatusForParse(TooLarge) <==> a.Oversized?
    ensures RequiresClose(StatusForFile(a)) <==> a.Unusable? || a.Oversized? || a.Broken?
  {}

  // ----------------------------------------------------------------- handlers

  datatype Outcome = Built(resp: Response) | BuildFailed

  /** What the handlers did for one answer: whether one failed, what the file system was asked for and
      answered last, and the page built last. */
  datatype Work = Work(failed: bool, asked: bytes, file: FileAnswer, page: Response)

  /** A response with a Content-Type and nothing else: text, JSON, error pages, files, echoes. */
  function Typed(status: nat, reason: bytes, contentType: bytes, body: Body): Response {
    Response(status, reason, [Header(CONTENT_TYPE, contentType)], body, false)
  }

  lemma ContentTypeName()
    ensures GoodName(CONTENT_TYPE) && COLON !in CONTENT_TYPE && LF !in CONTENT_TYPE
    ensures !EqualCI(CONTENT_TYPE, CONTENT_LENGTH) && !EqualCI(CONTENT_TYPE, TRANSFER_ENCODING)
  {}

  lemma TypedWellBuilt(status: nat, reason: bytes, contentType: bytes, body: Body)
    requires GoodStatus(status) && Clean(reason) && |reason| <= 64
    requires Clean(contentType) && Trimmed(contentType) && BodyLength(body) <= SIZE_MAX
    ensures WellBuilt(Typed(status, reason, contentType, body))
  {
    hide WellFormedField, Clean, Trimmed, Decimal, EqualCI, CountNamed;
    var h := Header(CONTENT_TYPE, contentType);
    ContentTypeName();
    FieldGood(CONTENT_TYPE, contentType);
    CountOne(h, CONTENT_LENGTH);
    CountOne(h, TRANSFER_ENCODING);
    ThreeDigits(status);
  }

  /** The Content-Type an echo answers with. */
  function EchoType(r: Request): bytes {
    var given := FirstNamed(r.headers, CONTENT_TYPE);
    if given.None? || given.value == [] then OCTET_STREAM else given.value
  }

  /** The Content-Type is the one the request names first, unless that is empty or missing. */
  lemma EchoTypeMeaning(r: Request, i: int)
    ensures IsFirst(r.headers, CONTENT_TYPE, i) && r.headers[i].value != [] ==> EchoType(r) == r.headers[i].value
    ensures IsFirst(r.headers, CONTENT_TYPE, i) && r.headers[i].value == [] ==> EchoType(r) == OCTET_STREAM
    ensures (forall j :: 0 <= j < |r.headers| ==> !EqualCI(r.headers[j].name, CONTENT_TYPE)) ==>
              EchoType(r) == OCTET_STREAM
  {
    hide EqualCI, FirstNamed;
    if IsFirst(r.headers, CONTENT_TYPE, i) {
      FirstNamedAt(r.headers, CONTENT_TYPE, i);
    }
  }

  /** `handle_echo`. */
  function EchoResponse(r: Request): Response {
    Typed(200, OK_REASON, EchoType(r), if r.body == [] then NoBody else Memory(r.body))
  }

  lemma OctetStreamGood()
    ensures Clean(OCTET_STREAM) && Trimmed(OCTET_STREAM)
  {}

  lemma BodyWithinLimit(r: Request)
    requires RoundTrip.WellFormed(r)
    ensures |r.body| <= SIZE_MAX
  {
    hide CountNamed;
  }

  lemma OkClean()
    ensures Clean(OK_REASON)
  {}

  /** The Content-Type that echo copies from the request cannot break the response: stored values
      hold no LF and no NUL. */
  lemma EchoWellBuilt(r: Request)
    requires RoundTrip.WellFormed(r)
    ensures WellBuilt(EchoResponse(r))
  {
    hide WellBuilt, Clean, Trimmed, EqualCI, CountNamed, Declares, RoundTrip.WellFormedLine;
    BodyWithinLimit(r);
    OctetStreamGood();
    assert Clean(OK_REASON) by { OkClean(); }
    TypedWellBuilt(200, OK_REASON, EchoType(r), EchoResponse(r).body);
  }

  /** `router_is_api_request`: "/api" before the query, or anything below "/api/". */
  predicate ApiTarget(target: bytes) {
    API <= target && (|target| == |API| || target[|API|] == QUESTION || target[|API|] == SLASH)
  }

  /** The status of the static-file branch: the string pipeline decides the first two cases alone, the
      file system the last, unless the answer could not be built. */
  predicate StaticStatus(target: bytes, status: nat, work: Work) {
    match StaticPath.Relative(target)
    case Err(BadTarget) => status == 400
    case Err(Forbidden) => status == 403
    case Ok(path) =>
      && work.asked == path
      && status == if work.file.Found? && work.failed then 500 else StatusForFile(work.file)
  }

  /** The part of a target that `path_equals` compares. */
  function BeforeQuery(target: bytes): bytes {
    var k := IndexOf(target, QUESTION);
    if k < 0 then target else target[..k]
  }

  /** It is the target itself, or what stands in front of its first question mark. */
  lemma BeforeQueryMeaning(target: bytes, path: bytes)
    ensures BeforeQuery(target) == path <==>
              QUESTION !in path && (target == path || exists query :: target == path + [QUESTION] + query)
  {
    hide IndexOf;
    var k := IndexOf(target, QUESTION);
    if k >= 0 && BeforeQuery(target) == path {
      assert target == path + [QUESTION] + target[k + 1..];
    }
    forall query | QUESTION !in path && target == path + [QUESTION] + query ensures BeforeQuery(target) == path {
      WordCut(path, QUESTION, query);
    }
  }

  /** The API is "/api" and everything below it, whatever the query. */
  lemma ApiTargetMeaning(target: bytes)
    ensures ApiTarget(target) <==> BeforeQuery(target) == API || API + [SLASH] <= BeforeQuery(target)
  {
    var k, path := IndexOf(target, QUESTION), BeforeQuery(target);
    assert forall i :: 0 <= i < |API| ==> API[i] != QUESTION;
    assert API <= target ==> forall i :: 0 <= i < |API| ==> target[i] == API[i];
    assert path <= target;
    assert |path| >= 4 ==> path[..4] == target[..4];
    assert |path| >= 5 ==> path[..5] == path[..4] + [target[4]];
  }

  predicate ReadsOnly(m: Method) { m.GET? || m.HEAD? }

  /** The statuses of the API branch: the handler's, 405 for another method, 404 for another path, and
      500 only when building any of these failed. */
  predicate ApiStatus(r: Request, status: nat, failed: bool) {
    var path := BeforeQuery(r.line.target);
    || (failed && status == 500)
    || status == (if path == HEALTH_PATH || path == STATS_PATH then if ReadsOnly(r.line.meth) then 200 else 405
                  else if path == ECHO_PATH then if r.line.meth.POST? then 200 else 405
                  else 404)
  }

  /** The response is that page, whatever was done to its Connection fields and added to it. */
  ghost predicate Carries(resp: Response, page: Response) {
    && resp.reason == page.reason && resp.body == page.body
    && forall h :: h in page.headers && !EqualCI(h.name, CONNECTION) ==> h in resp.headers
  }

  predicate IsEcho(r: Request, resp: Response) {
    && resp.reason == OK_REASON && BodyBytes(resp.body) == r.body
    && Header(CONTENT_TYPE, EchoType(r)) in resp.headers
  }

  predicate Echoes(r: Request) { BeforeQuery(r.line.target) == ECHO_PATH && r.line.meth.POST? }

  /** The statuses each branch of the dispatch can produce. */
  predicate StatusFits(r: Request, status: nat, work: Work) {
    if ApiTarget(r.line.target) then ApiStatus(r, status, work.failed)
    else if ReadsOnly(r.line.meth) then StaticStatus(r.line.target, status, work)
    else status == 405
  }

  /** `build_allow_header`: the methods a route answers to. */
  function AllowFor(path: bytes): bytes { if path == ECHO_PATH then POST_TOKEN else GET_AND_HEAD }

  lemma PathsDiffer()
    ensures ECHO_PATH != HEALTH_PATH && ECHO_PATH != STATS_PATH
  {
    assert |ECHO_PATH| == 9 && |HEALTH_PATH| == 11 && |STATS_PATH| == 10;
  }

  /** The word is one of the comma-separated, trimmed elements of the list. */
  ghost predicate Lists(list: bytes, word: bytes) {
    exists i :: 0 <= i < |SplitOn(list, COMMA)| && Trim(SplitOn(list, COMMA)[i]) == word
  }

  lemma WordsAreTrimmed()
    ensures Trim(GET_TOKEN) == GET_TOKEN && Trim([SP] + HEAD_TOKEN) == HEAD_TOKEN && Trim(POST_TOKEN) == POST_TOKEN
  {
    hide Trim;
    assert Trimmed(GET_TOKEN) && Trimmed(HEAD_TOKEN) && Trimmed(POST_TOKEN);
    TrimCore([], GET_TOKEN);
    TrimCore([SP], HEAD_TOKEN);
    TrimCore([], POST_TOKEN);
    assert [] + GET_TOKEN == GET_TOKEN && [] + POST_TOKEN == POST_TOKEN;
  }

  lemma AllowParts()
    ensures SplitOn(GET_AND_HEAD, COMMA) == [GET_TOKEN, [SP] + HEAD_TOKEN]
    ensures SplitOn(POST_TOKEN, COMMA) == [POST_TOKEN]
  {
    hide SplitOn, Join;
    var head := [SP] + HEAD_TOKEN;
    assert COMMA !in GET_TOKEN && COMMA !in head && COMMA !in POST_TOKEN;
    assert GET_AND_HEAD == GET_TOKEN + [COMMA] + head;
    JoinOne(POST_TOKEN, COMMA);
    JoinSplits([POST_TOKEN], COMMA);
    JoinOne(head, COMMA);
    JoinCons(GET_TOKEN, [head], COMMA);
    assert [GET_TOKEN] + [head] == [GET_TOKEN, head];
    JoinSplits([GET_TOKEN, head], COMMA);
  }

  /** The Allow field tells the truth: a method is listed for a route exactly when the route answers it
      with 200 rather than 405. */
  lemma AllowIsTrue(r: Request, m: Method)
    requires BeforeQuery(r.line.target) in {HEALTH_PATH, STATS_PATH, ECHO_PATH}
    ensures var again := r.(line := r.line.(meth := m));
            var listed := Lists(AllowFor(BeforeQuery(r.line.target)), MethodToken(m));
            && ApiStatus(again, if listed then 200 else 405, false)
            && !ApiStatus(again, if listed then 405 else 200, false)
  {
    hide SplitOn, Trim, BeforeQuery;
    PathsDiffer();
    AllowParts();
    WordsAreTrimmed();
    assert GET_TOKEN[0] != HEAD_TOKEN[0] && HEAD_TOKEN[0] != POST_TOKEN[0] && GET_TOKEN[0] != POST_TOKEN[0];
    var get, post := SplitOn(GET_AND_HEAD, COMMA), SplitOn(POST_TOKEN, COMMA);
    assert Trim(get[0]) == GET_TOKEN && Trim(get[1]) == HEAD_TOKEN && Trim(post[0]) == POST_TOKEN;
  }

  /** A response the dispatch may give after this work of the handlers: its status fits, a 405 of the API
      names the methods allowed, an echo carries the body and its type, and anything else is the page
      that was built last. */
  ghost predicate Dispatched(r: Request, resp: Response, work: Work) {
    && StatusFits(r, resp.status, work)
    && (ApiTarget(r.line.target) && resp.status == 405 ==>
          Header(ALLOW, AllowFor(BeforeQuery(r.line.target))) in resp.headers)
    && (if Echoes(r) && resp.status == 200
        then IsEcho(r, resp) else Carries(resp, work.page))
  }

  lemma EchoIsApi(r: Request)
    requires Echoes(r)
    ensures ApiTarget(r.line.target)
  {
    var t := r.line.target;
    assert ECHO_PATH <= t;
    assert t[0] == ECHO_PATH[0] && t[1] == ECHO_PATH[1] && t[2] == ECHO_PATH[2] && t[3] == ECHO_PATH[3];
    assert t[4] == ECHO_PATH[4] == SLASH;
  }

  /** The handlers and the file system: they give any answer, and remember what they gave. */
  class Handlers {
    var failures: nat      // handlers that failed and responses that could not be built
    var asked: bytes       // the last path the file system was asked for
    var file: FileAnswer   // and its answer
    var page: Response     // the last response built

    constructor ()
      ensures failures == 0
    {
      failures, asked, file, page := 0, [], Missing, Response(500, [], [], NoBody, false);
    }

    /** What was done since there were that many failures. */
    function Since(failuresBefore: nat): Work
      reads this
    {
      Work(failures > failuresBefore, asked, file, page)
    }

    /** Any handler: an arbitrary well-built response of that status, or none. */
    method Build(status: nat) returns (o: Outcome)
      modifies `failures, `page
      ensures o.Built? ==> WellBuilt(o.resp) && o.resp.status == status && page == o.resp
      ensures failures == old(failures) + (if o.BuildFailed? then 1 else 0)
    {
      var resp: Response := *;
      if WellBuilt(resp) && resp.status == status {
        page := resp;
        return Built(resp);
      }
      failures := failures + 1;
      return BuildFailed;
    }

    /** Does the handler of an API route succeed? */
    method Handle() returns (ok: bool)
      modifies `failures
      ensures failures == old(failures) + (if ok then 0 else 1)
    {
      ok := *;
      if !ok {
        failures := failures + 1;
      }
    }

    /** Everything between the relative path and an open regular file. */
    method Open(relative: bytes) returns (a: FileAnswer)
      modifies `asked, `file
      ensures asked == relative && file == a
    {
      a := *;
      asked, file := relative, a;
    }
  }

  /** `build_static_error_response`: the error page or, if that fails, a plain text of the same status. */
  method BuildError(handlers: Handlers, status: nat) returns (o: Outcome)
    modifies handlers`failures, handlers`page
    ensures o.Built? ==> WellBuilt(o.resp) && o.resp.status == status && handlers.page == o.resp
    ensures handlers.failures >= old(handlers.failures)
    ensures o.BuildFailed? ==> handlers.failures > old(handlers.failures) + 1
  {
    hide WellBuilt;
    o := handlers.Build(status);
    if o.BuildFailed? {
      o := handlers.Build(status);
    }
  }

  lemma AllowGood(path: bytes)
    ensures WellFormedField(Header(ALLOW, AllowFor(path)))
    ensures !EqualCI(ALLOW, CONTENT_LENGTH) && !EqualCI(ALLOW, TRANSFER_ENCODING)
  {}

  lemma OneMoreField(r: Response, h: Header)
    requires WellBuilt(r) && WellFormedField(h)
    requires !EqualCI(h.name, CONTENT_LENGTH) && !EqualCI(h.name, TRANSFER_ENCODING)
    ensures WellBuilt(r.(headers := r.headers + [h]))
  {
    hide WellFormedField, CountNamed, EqualCI, Clean, Decimal;
    CountAppend(r.headers, [h], CONTENT_LENGTH);
    CountAppend(r.headers, [h], TRANSFER_ENCODING);
    CountOne(h, CONTENT_LENGTH);
    CountOne(h, TRANSFER_ENCODING);
  }

  /** `build_api_error` for another method on a known path. */
  method BuildNotAllowed(handlers: Handlers, path: bytes) returns (o: Outcome)
    modifies handlers`failures, handlers`page
    ensures o.Built? ==> WellBuilt(o.resp) && o.resp.status == 405
    ensures o.Built? ==> Header(ALLOW, AllowFor(path)) in o.resp.headers && Carries(o.resp, handlers.page)
    ensures handlers.failures == old(handlers.failures) + (if o.BuildFailed? then 1 else 0)
  {
    hide WellBuilt, WellFormedField, EqualCI;
    var h := Header(ALLOW, AllowFor(path));
    o := handlers.Build(405);
    if o.Built? {
      AllowGood(path);
      OneMoreField(o.resp, h);
      var resp := o.resp.(headers := o.resp.headers + [h]);
      assert resp.headers[|resp.headers| - 1] == h;
      o := Built(resp);
    }
  }

  /** The static-file handler: a file or one of the error pages. */
  method ServeFile(handlers: Handlers, target: bytes) returns (o: Outcome)
    requires NUL !in target
    modifies handlers
    ensures handlers.failures >= old(handlers.failures)
    ensures o.Built? ==> WellBuilt(o.resp) && handlers.page == o.resp
    ensures o.Built? ==> StaticStatus(target, o.resp.status, handlers.Since(old(handlers.failures)))
    ensures o.BuildFailed? ==> handlers.failures > old(handlers.failures) + 1
  {
    hide WellBuilt, StaticPath.Relative;
    var relative := StaticPath.ResolveTarget(target);
    match relative {
      case Err(BadTarget) => o := BuildError(handlers, 400);
      case Err(Forbidden) => o := BuildError(handlers, 403);
      case Ok(path) =>
        var answer := handlers.Open(path);
        if answer.Found? {
          o := handlers.Build(200);
          if o.Built? {
            return;
          }
          answer := Broken;
        }
        o := BuildError(handlers, StatusForFile(answer));
    }
  }

  /** `router_dispatch`, and the 500 page when it fails. */
  method RouteApi(handlers: Handlers, r: Request) returns (o: Outcome)
    requires RoundTrip.WellFormed(r) && ApiTarget(r.line.target)
    modifies handlers`failures, handlers`page
    ensures handlers.failures >= old(handlers.failures)
    ensures o.Built? ==> WellBuilt(o.resp) && Dispatched(r, o.resp, handlers.Since(old(handlers.failures)))
    ensures o.BuildFailed? ==> handlers.failures > old(handlers.failures) + 1
  {
    hide WellBuilt, RoundTrip.WellFormed, ApiTarget, BeforeQuery, EchoType, AllowFor;
    var path := BeforeQuery(r.line.target);
    if path == HEALTH_PATH || path == STATS_PATH {
      assert path != ECHO_PATH by { PathsDiffer(); }
      if ReadsOnly(r.line.meth) {
        o := handlers.Build(200);
      } else {
        o := BuildNotAllowed(handlers, path);
      }
    } else if path != ECHO_PATH {
      o := handlers.Build(404);
    } else if r.line.meth.POST? {
      var ok := handlers.Handle();
      EchoWellBuilt(r);
      o := if ok then Built(EchoResponse(r)) else BuildFailed;
      assert EchoResponse(r).headers[0] == Header(CONTENT_TYPE, EchoType(r));
    } else {
      o := BuildNotAllowed(handlers, path);
    }
    if o.BuildFailed? {
      o := BuildError(handlers, 500);
    }
  }

  lemma TargetIsCString(r: Request)
    requires RoundTrip.WellFormed(r)
    ensures NUL !in r.line.target
  {
    hide WellFormedField, Declares;
  }

  /** The dispatch of a parsed request. */
  method Route(handlers: Handlers, r: Request) returns (o: Outcome)
    requires RoundTrip.WellFormed(r)
    modifies handlers
    ensures handlers.failures >= old(handlers.failures)
    ensures o.Built? ==> WellBuilt(o.resp) && Dispatched(r, o.resp, handlers.Since(old(handlers.failures)))
    ensures o.BuildFailed? ==> handlers.failures > old(handlers.failures) + 1
  {
    hide WellBuilt, RoundTrip.WellFormed, ApiTarget, StaticStatus, Echoes, ApiStatus, AllowFor, BeforeQuery;
    if Echoes(r) {
      EchoIsApi(r);
    }
    if ApiTarget(r.line.target) {
      o := RouteApi(handlers, r);
    } else if r.line.meth.GET? || r.line.meth.HEAD? {
      TargetIsCString(r);
      o := ServeFile(handlers, r.line.target);
    } else {
      o := BuildError(handlers, 405);
    }
  }
}
