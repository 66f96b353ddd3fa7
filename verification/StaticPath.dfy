/** The string part of static file lookup: segment-stack normalization, the join with the document
    root and the boundary check. */
module StaticPath {
  import opened Bytes
  import opened UrlDecode

  const DOT: byte := 46
  const HERE: bytes := [DOT]
  const UP: bytes := [DOT, DOT]
  const PATH_MAX: nat := 4096

  // ---------------------------------------------------------- the segment stack

  /** An ordinary segment: it names something. */
  predicate Name(seg: bytes) { seg != [] && seg != HERE && seg != UP }

  function Step(stack: Option<seq<bytes>>, seg: bytes): Option<seq<bytes>> {
    if stack.None? then None
    else if Name(seg) then Some(stack.value + [seg])
    else if seg != UP then stack
    else if stack.value == [] then None
    else Some(stack.value[..|stack.value| - 1])
  }

  /** The stack after all segments; None once a `..` found it empty. */
  function Fold(segs: seq<bytes>): Option<seq<bytes>> {
    if segs == [] then Some([]) else Step(Fold(segs[..|segs| - 1]), segs[|segs| - 1])
  }

  lemma FoldSnoc(segs: seq<bytes>, seg: bytes)
    ensures Fold(segs + [seg]) == Step(Fold(segs), seg)
  {
    assert (segs + [seg])[..|segs|] == segs;
  }

  lemma {:induction false} FoldStuck(segs: seq<bytes>, more: seq<bytes>)
    requires Fold(segs).None?
    ensures Fold(segs + more).None?
    decreases |more|
  {
    if more == [] {
      assert segs + more == segs;
    } else {
      var last := |more| - 1;
      FoldStuck(segs, more[..last]);
      FoldSnoc(segs + more[..last], more[last]);
      assert segs + more == segs + more[..last] + [more[last]];
    }
  }

  /** `static_files_normalize_path` as a fold over the segments. */
  function Normalize(path: bytes): Result<bytes, PathError> {
    if path == [] || path[0] != SLASH then Err(BadTarget)
    else match Fold(SplitOn(path[1..], SLASH))
      case None => Err(Forbidden)
      case Some(stack) => Ok(Join(stack, SLASH))
  }

  // ------------------------------------------------------------- the C loops

  lemma {:induction false} JoinSnoc(segs: seq<bytes>, seg: bytes)
    requires segs != []
    ensures Join(segs + [seg], SLASH) == Join(segs, SLASH) + ([SLASH] + seg)
  {
    var all := segs + [seg];
    assert all[1..] == segs[1..] + [seg];
    if |segs| > 1 {
      JoinSnoc(segs[1..], seg);
    }
  }

  /** The output after `i` segments and the slashes behind them. */
  ghost function Written(segs: seq<bytes>, i: nat): bytes
    requires i <= |segs|
  {
    if i == 0 then [] else if i < |segs| then Join(segs[..i], SLASH) + [SLASH] else Join(segs, SLASH)
  }

  function SlashAfter(segs: seq<bytes>, i: nat): bytes { if i + 1 < |segs| then [SLASH] else [] }

  lemma WrittenStep(segs: seq<bytes>, i: nat)
    requires i < |segs|
    ensures Written(segs, i + 1) == Written(segs, i) + segs[i] + SlashAfter(segs, i)
  {
    var next := i + 1;
    assert segs[..next] == segs[..i] + [segs[i]];
    assert next == |segs| ==> segs[..next] == segs;
    if i > 0 {
      JoinSnoc(segs[..i], segs[i]);
    }
  }

  /** The bytes that segments `i` and later take. */
  function Room(segs: seq<bytes>, i: nat): nat
    decreases |segs| - i
  {
    if i >= |segs| then 0 else |segs[i]| + |SlashAfter(segs, i)| + Room(segs, i + 1)
  }

  lemma NothingWritten(segs: seq<bytes>)
    ensures Written(segs, 0) == []
  {}

  lemma AllWritten(segs: seq<bytes>)
    ensures Written(segs, |segs|) == Join(segs, SLASH)
  {}

  /** The two passes that measure and fill the relative path, with a NUL behind it. */
  method JoinSegments(segs: seq<bytes>) returns (r: bytes)
    ensures r == Join(segs, SLASH) + [NUL]
  {
    hide Join, Written;
    var total, i := 0, 0;
    while i < |segs|
      invariant i <= |segs| && total + Room(segs, i) == Room(segs, 0)
    {
      total := total + |segs[i]|;
      if i + 1 < |segs| {
        total := total + 1;
      }
      i := i + 1;
    }
    var relative := new byte[total + 1];
    var off := 0;
    i := 0;
    NothingWritten(segs);
    while i < |segs|
      invariant i <= |segs| && off + Room(segs, i) == total
      invariant relative[..off] == Written(segs, i)
    {
      WrittenStep(segs, i);
      CopyInto(relative, off, segs[i]);
      off := off + |segs[i]|;
      if i + 1 < |segs| {
        relative[off] := SLASH;
        off := off + 1;
        assert relative[..off] == relative[..off - 1] + [SLASH];
      } else {
        assert relative[..off] + [] == relative[..off];
      }
      i := i + 1;
    }
    relative[off] := NUL;
    AllWritten(segs);
    assert relative[..] == relative[..off] + [NUL];
    return relative[..];
  }

  /** The segments still to come, given those already seen: the last slash may leave nothing. */
  ghost predicate Ahead(path: bytes, p: nat, done: seq<bytes>, all: seq<bytes>) {
    if p < |path| then all == done + SplitOn(path[p..], SLASH) else all == done || all == done + [[]]
  }

  lemma SplitAt(s: bytes, seg: bytes, back: bytes)
    requires SLASH !in seg && s == seg + ([SLASH] + back)
    ensures SplitOn(s, SLASH) == [seg] + SplitOn(back, SLASH)
  {
    hide IndexOf;
    var k := |seg|;
    assert s[k] == SLASH && s[..k] == seg && s[k + 1..] == back;
    assert forall i :: 0 <= i < k ==> s[i] == seg[i];
    IndexOfIs(s, SLASH, k);
  }

  lemma SplitNone(s: bytes)
    requires SLASH !in s
    ensures SplitOn(s, SLASH) == [s]
  {
    hide IndexOf;
  }

  lemma Regroup(a: seq<bytes>, b: bytes, c: seq<bytes>)
    ensures a + ([b] + c) == a + [b] + c
  {}

  /** One scanned segment. */
  lemma AheadStep(path: bytes, start: nat, p: nat, done: seq<bytes>, all: seq<bytes>)
    requires start < |path| && start <= p <= |path| && Ahead(path, start, done, all)
    requires SLASH !in path[start..p] && (p < |path| ==> path[p] == SLASH)
    ensures Ahead(path, if p < |path| then p + 1 else p, done + [path[start..p]], all)
    ensures exists more :: all == done + [path[start..p]] + more
  {
    hide SplitOn;
    var rest, seg := path[start..], path[start..p];
    if p < |path| {
      var next := p + 1;
      var back := path[next..];
      assert rest == seg + ([SLASH] + back);
      SplitAt(rest, seg, back);
      Regroup(done, seg, SplitOn(back, SLASH));
      if next == |path| {
        SplitNone(back);
        assert back == [];
      }
    } else {
      assert seg == rest;
      SplitNone(rest);
      assert all == done + [seg] + [];
    }
  }

  lemma FoldAtEnd(path: bytes, p: nat, done: seq<bytes>, all: seq<bytes>)
    requires p >= |path| && Ahead(path, p, done, all)
    ensures Fold(all) == Fold(done)
  {
    FoldSnoc(done, []);
  }

  lemma StartAhead(path: bytes, all: seq<bytes>)
    requires path != [] && all == SplitOn(path[1..], SLASH)
    ensures Ahead(path, 1, [], all) && Fold([]) == Some([])
  {
    assert [] + all == all;
    assert |path| == 1 ==> all == [[]];
  }

  /** `static_files_normalize_path`. */
  method NormalizePath(path: bytes) returns (r: Result<bytes, PathError>)
    requires NUL !in path
    ensures r == Normalize(path)
  {
    hide Fold, Join, SplitOn, Ahead;
    if path == [] || path[0] != SLASH {
      return Err(BadTarget);
    }
    ghost var all := SplitOn(path[1..], SLASH);
    var segments: seq<bytes>, p := [], 1;
    ghost var done: seq<bytes> := [];
    StartAhead(path, all);
    while p < |path|
      invariant 1 <= p <= |path| && Ahead(path, p, done, all)
      invariant Fold(done) == Some(segments)
    {
      var start := p;
      while p < |path| && path[p] != SLASH
        invariant start <= p <= |path| && SLASH !in path[start..p]
      {
        assert path[start..p + 1] == path[start..p] + [path[p]];
        p := p + 1;
      }
      var seg := path[start..p];
      AheadStep(path, start, p, done, all);
      FoldSnoc(done, seg);
      done := done + [seg];
      if |seg| == 0 {
      } else if |seg| == 1 && seg[0] == DOT {
      } else if |seg| == 2 && seg[0] == DOT && seg[1] == DOT {
        if |segments| == 0 {
          ghost var more :| all == done + more;
          FoldStuck(done, more);
          return Err(Forbidden);
        }
        segments := segments[..|segments| - 1];
      } else {
        segments := segments + [seg];
      }
      if p < |path| {
        p := p + 1;
      }
    }
    FoldAtEnd(path, p, done, all);
    var relative := JoinSegments(segments);
    assert relative[..|relative| - 1] == Join(segments, SLASH);
    return Ok(relative[..|relative| - 1]);
  }

  // ------------------------------------------------------- what the fold means

  function Weight(seg: bytes): int { if Name(seg) then 1 else if seg == UP then -1 else 0 }

  /** Ordinary segments minus `..` segments. */
  function Depth(segs: seq<bytes>): int {
    if segs == [] then 0 else Depth(segs[..|segs| - 1]) + Weight(segs[|segs| - 1])
  }

  /** Some prefix climbs above where it started. */
  ghost predicate Escapes(segs: seq<bytes>) {
    exists k :: 0 <= k <= |segs| && Depth(segs[..k]) < 0
  }

  lemma EscapesSnoc(segs: seq<bytes>)
    requires segs != []
    ensures Escapes(segs) <==> Escapes(segs[..|segs| - 1]) || Depth(segs) < 0
  {
    hide Depth;
    var n := |segs| - 1;
    var front := segs[..n];
    assert segs[..n + 1] == segs;
    assert forall k :: 0 <= k <= n ==> segs[..k] == front[..k];
    if Escapes(front) {
      var k :| 0 <= k <= n && Depth(front[..k]) < 0;
      assert Depth(segs[..k]) < 0;
    }
  }

  lemma {:induction false} FoldDepth(segs: seq<bytes>)
    ensures Fold(segs).None? <==> Escapes(segs)
    ensures Fold(segs).Some? ==> |Fold(segs).value| == Depth(segs)
  {
    if segs == [] {
      assert forall k :: 0 <= k <= |segs| ==> segs[..k] == [];
    } else {
      var n := |segs| - 1;
      var front := segs[..n];
      FoldDepth(front);
      assert segs[..n + 1] == segs;
      assert forall k :: 0 <= k <= n ==> segs[..k] == front[..k];
      EscapesSnoc(segs);
    }
  }

  /** A reference without a stack: read from the right, each `..` cancels the next name to its left;
      `up` counts those still open. */
  function Survivors(segs: seq<bytes>, up: nat): seq<bytes> {
    if segs == [] then []
    else
      var front, seg := segs[..|segs| - 1], segs[|segs| - 1];
      if seg == UP then Survivors(front, up + 1)
      else if !Name(seg) then Survivors(front, up)
      else if up > 0 then Survivors(front, up - 1)
      else Survivors(front, 0) + [seg]
  }

  function Shorten(stack: seq<bytes>, n: nat): seq<bytes> {
    if n <= |stack| then stack[..|stack| - n] else []
  }

  /** The stack holds exactly the names that no later `..` cancels. */
  lemma {:induction false} FoldSurvivors(segs: seq<bytes>, up: nat)
    requires Fold(segs).Some?
    ensures Survivors(segs, up) == Shorten(Fold(segs).value, up)
  {
    if segs != [] {
      var front, seg := segs[..|segs| - 1], segs[|segs| - 1];
      var stack := Fold(front).value;
      if seg == UP {
        FoldSurvivors(front, up + 1);
      } else if !Name(seg) {
        FoldSurvivors(front, up);
      } else if up > 0 {
        FoldSurvivors(front, up - 1);
        assert up <= |stack| + 1 ==> (stack + [seg])[..|stack| + 1 - up] == stack[..|stack| + 1 - up];
      } else {
        FoldSurvivors(front, 0);
        assert Shorten(stack, 0) == stack;
        assert Shorten(stack + [seg], 0) == stack + [seg];
      }
    }
  }

  // --------------------------------------------------------- canonical results

  predicate Component(seg: bytes) { Name(seg) && SLASH !in seg }

  predicate Components(segs: seq<bytes>) { forall i :: 0 <= i < |segs| ==> Component(segs[i]) }

  predicate SlashFree(segs: seq<bytes>) { forall i :: 0 <= i < |segs| ==> SLASH !in segs[i] }

  lemma {:induction false} SplitSlashFree(s: bytes)
    ensures SlashFree(SplitOn(s, SLASH))
    decreases |s|
  {
    var k := IndexOf(s, SLASH);
    if k >= 0 {
      SplitSlashFree(s[k + 1..]);
    }
  }

  lemma {:induction false} FoldComponents(segs: seq<bytes>)
    requires SlashFree(segs) && Fold(segs).Some?
    ensures Components(Fold(segs).value)
  {
    if segs != [] {
      FoldComponents(segs[..|segs| - 1]);
    }
  }

  lemma EmptyPath()
    ensures Join([], SLASH) == [] && Fold([]) == Some([]) && Fold(SplitOn([], SLASH)) == Some([])
  {
    assert SplitOn([], SLASH) == [[]];
    FoldSnoc([], []);
  }

  lemma {:induction false} FoldOfNames(segs: seq<bytes>)
    requires Components(segs)
    ensures Fold(segs) == Some(segs)
  {
    hide Fold, Name;
    if segs == [] {
      EmptyPath();
    } else {
      var front, seg := segs[..|segs| - 1], segs[|segs| - 1];
      FoldOfNames(front);
      assert Component(seg);
      assert segs == front + [seg];
      FoldSnoc(front, seg);
    }
  }

  /** Splitting undoes joining. */
  lemma SplitJoin(segs: seq<bytes>)
    requires segs != [] && Components(segs)
    ensures SplitOn(Join(segs, SLASH), SLASH) == segs
  {
    hide SplitOn, Join, Name;
    assert forall i :: 0 <= i < |segs| ==> Component(segs[i]);
    JoinSplits(segs, SLASH);
  }

  /** A joined list of names is its own normal form. */
  lemma NormalForm(segs: seq<bytes>)
    requires Components(segs)
    ensures Normalize([SLASH] + Join(segs, SLASH)) == Ok(Join(segs, SLASH))
  {
    hide SplitOn, Join, Fold;
    var path := [SLASH] + Join(segs, SLASH);
    assert path[1..] == Join(segs, SLASH);
    if segs == [] {
      EmptyPath();
    } else {
      SplitJoin(segs);
      FoldOfNames(segs);
    }
  }

  /** What normalization returns: the surviving names joined, a normal form; FORBIDDEN exactly when
      some prefix has more `..` than ordinary segments. */
  lemma NormalizeMeaning(path: bytes)
    requires path != [] && path[0] == SLASH
    ensures var segs := SplitOn(path[1..], SLASH);
            && (Normalize(path) == Err(Forbidden) <==> Escapes(segs))
            && (!Escapes(segs) ==> var names := Survivors(segs, 0);
                  Components(names) && |names| == Depth(segs) && Normalize(path) == Ok(Join(names, SLASH)))
    ensures Normalize(path).Ok? ==> Normalize([SLASH] + Normalize(path).value) == Normalize(path)
  {
    hide SplitOn, Join, Fold, Escapes, Survivors, Depth, Components, SlashFree;
    var segs := SplitOn(path[1..], SLASH);
    FoldDepth(segs);
    if Fold(segs).Some? {
      var stack := Fold(segs).value;
      FoldSurvivors(segs, 0);
      assert stack[..|stack|] == stack;
      SplitSlashFree(path[1..]);
      FoldComponents(segs);
      NormalForm(stack);
    }
  }

  // ------------------------------------------------------------ document root

  /** The absolute path with these components. */
  function Canonical(segs: seq<bytes>): bytes { [SLASH] + Join(segs, SLASH) }

  /** Every component with a slash in front. */
  function Flat(segs: seq<bytes>): bytes {
    if segs == [] then [] else [SLASH] + (segs[0] + Flat(segs[1..]))
  }

  lemma {:induction false} CanonicalIsFlat(segs: seq<bytes>)
    requires segs != []
    ensures Canonical(segs) == Flat(segs)
  {
    if |segs| == 1 {
      assert Flat(segs[1..]) == [];
    } else {
      CanonicalIsFlat(segs[1..]);
    }
  }

  /** `path_is_within_root`. */
  predicate PathIsWithinRoot(path: bytes, root: bytes) {
    && |path| >= |root|
    && path[..|root|] == root
    && (|path| == |root| || path[|root|] == SLASH)
  }

  lemma FlatStart(segs: seq<bytes>)
    ensures Flat(segs) == [] || Flat(segs)[0] == SLASH
  {}

  lemma Different(p: bytes, ps: bytes, r: bytes, rs: bytes)
    requires SLASH !in p && SLASH !in r && p != r
    requires ps == [] || ps[0] == SLASH
    requires rs == [] || rs[0] == SLASH
    ensures !PathIsWithinRoot([SLASH] + (p + ps), [SLASH] + (r + rs))
  {
    var path, root := [SLASH] + (p + ps), [SLASH] + (r + rs);
    var start := path[..if |path| < |root| then |path| else |root|];
    assert forall i :: 0 <= i < |p| ==> path[1 + i] == p[i];
    assert forall i :: 0 <= i < |r| ==> root[1 + i] == r[i];
    assert ps != [] ==> path[1 + |p|] == SLASH;
    assert rs != [] ==> root[1 + |r|] == SLASH;
    assert |path| >= |root| ==> forall i :: 0 <= i < |root| ==> start[i] == path[i];
  }

  /** Two components followed by flat rests can only match when they are equal. */
  lemma SameFirst(p: bytes, ps: bytes, r: bytes, rs: bytes)
    requires SLASH !in p && SLASH !in r
    requires ps == [] || ps[0] == SLASH
    requires rs == [] || rs[0] == SLASH
    ensures PathIsWithinRoot([SLASH] + (p + ps), [SLASH] + (r + rs)) <==> p == r && PathIsWithinRoot(ps, rs)
  {
    var path, root := [SLASH] + (p + ps), [SLASH] + (r + rs);
    if p == r {
      var k := 1 + |r|;
      assert path[k..] == ps && root[k..] == rs && path[..k] == root[..k];
      if |ps| >= |rs| {
        assert path[..|root|] == path[..k] + ps[..|rs|];
        assert root == root[..k] + rs;
        assert path[..|root|][k..] == ps[..|rs|];
        assert |ps| > |rs| ==> path[|root|] == ps[|rs|];
      }
    } else {
      Different(p, ps, r, rs);
    }
  }

  lemma ComponentHasNoSlash(seg: bytes)
    requires Component(seg)
    ensures SLASH !in seg
  {}

  lemma PrefixStep(a: seq<bytes>, b: seq<bytes>)
    requires a != [] && b != []
    ensures a <= b <==> a[0] == b[0] && a[1..] <= b[1..]
  {
    if a[0] == b[0] && a[1..] <= b[1..] {
      assert forall i :: 1 <= i < |a| ==> a[i] == a[1..][i - 1] == b[1..][i - 1] == b[i];
    }
  }

  lemma {:induction false} FlatWithin(ps: seq<bytes>, rs: seq<bytes>)
    requires Components(ps) && Components(rs)
    ensures PathIsWithinRoot(Flat(ps), Flat(rs)) <==> rs <= ps
  {
    hide Component;
    FlatStart(ps);
    if rs != [] && ps != [] {
      assert Component(ps[0]) && Component(rs[0]);
      FlatStart(ps[1..]);
      FlatStart(rs[1..]);
      ComponentHasNoSlash(ps[0]);
      ComponentHasNoSlash(rs[0]);
      SameFirst(ps[0], Flat(ps[1..]), rs[0], Flat(rs[1..]));
      FlatWithin(ps[1..], rs[1..]);
      PrefixStep(rs, ps);
    }
  }

  lemma FirstNotEmpty(rs: seq<bytes>)
    requires Components(rs) && rs != []
    ensures |Canonical(rs)| >= 2 && Canonical(rs)[1] == rs[0][0] != SLASH
  {
    assert Component(rs[0]);
    var s := Canonical(rs);
    assert s[1] == rs[0][0];
  }

  /** With document root `/` no file is ever found inside the root. */
  lemma RootRefusesAll(ps: seq<bytes>)
    requires Components(ps) && ps != []
    ensures !PathIsWithinRoot(Canonical(ps), Canonical([])) && [] <= ps
  {
    FirstNotEmpty(ps);
  }

  /** The byte comparison is the component-prefix relation, except exactly for proper paths below the
      root directory `/`, all of which it refuses. */
  lemma WithinIsComponentPrefix(ps: seq<bytes>, rs: seq<bytes>)
    requires Components(ps) && Components(rs)
    ensures (PathIsWithinRoot(Canonical(ps), Canonical(rs)) <==> rs <= ps) <==> (rs != [] || ps == [])
  {
    hide Flat, Components;
    if rs != [] && ps != [] {
      CanonicalIsFlat(ps);
      CanonicalIsFlat(rs);
      FlatWithin(ps, rs);
    } else if ps == [] {
      assert Canonical(ps) == [SLASH];
      if rs != [] {
        assert Components(rs);
        FirstNotEmpty(rs);
      }
    } else {
      RootRefusesAll(ps);
    }
  }

  /** `join_root_relative`. */
  function JoinRoot(root: bytes, relative: bytes): Result<bytes, PathError> {
    var text := if relative == [] then root else root + ([SLASH] + relative);
    if |text| >= PATH_MAX then Err(BadTarget) else Ok(text)
  }

  lemma {:induction false} JoinAppend(a: seq<bytes>, b: seq<bytes>)
    requires a != [] && b != []
    ensures Join(a + b, SLASH) == Join(a, SLASH) + ([SLASH] + Join(b, SLASH))
  {
    var c := a + b;
    assert c[1..] == a[1..] + b;
    if |a| == 1 {
      assert c[1..] == b;
    } else {
      JoinAppend(a[1..], b);
    }
  }

  lemma JoinNotEmpty(names: seq<bytes>)
    requires Components(names) && names != []
    ensures Join(names, SLASH) != []
  {
    FirstNotEmpty(names);
  }

  /** A relative path joined to any canonical root but `/` is the canonical path of the components of
      both, and passes the boundary check. */
  lemma JoinedIsWithin(rs: seq<bytes>, names: seq<bytes>)
    requires Components(rs) && Components(names) && rs != []
    ensures var joined := JoinRoot(Canonical(rs), Join(names, SLASH));
            && (joined.Ok? <==> |Canonical(rs + names)| < PATH_MAX)
            && (joined.Ok? ==> joined.value == Canonical(rs + names) && PathIsWithinRoot(joined.value, Canonical(rs)))
  {
    hide Join, PathIsWithinRoot;
    assert Components(rs + names);
    WithinIsComponentPrefix(rs + names, rs);
    if names == [] {
      assert rs + names == rs;
      EmptyPath();
    } else {
      JoinAppend(rs, names);
      JoinNotEmpty(names);
    }
  }

  // --------------------------------------------------------------- the pipeline

  /** Extract, decode, normalize. */
  function Relative(target: bytes): Result<bytes, PathError> {
    if target == [] || target[0] != SLASH then Err(BadTarget)
    else match Decode(PathPart(target))
      case None => Err(BadTarget)
      case Some(path) => Normalize(path)
  }

  /** The string half of `static_files_serve`. */
  method ResolveTarget(target: bytes) returns (r: Result<bytes, PathError>)
    requires NUL !in target
    ensures r == Relative(target)
  {
    hide Decode, Normalize;
    var pathOnly := ExtractPath(target);
    if pathOnly.Err? {
      return Err(pathOnly.error);
    }
    assert NUL !in pathOnly.value;
    var decoded := DecodeUrl(pathOnly.value);
    if decoded.Err? {
      return Err(decoded.error);
    }
    DecodedIsCString(pathOnly.value);
    r := NormalizePath(decoded.value);
  }

  lemma DecodedStart(s: bytes)
    requires s != [] && s[0] == SLASH && Decode(s).Some?
    ensures Decode(s).value != [] && Decode(s).value[0] == SLASH
  {}

  /** For every target: it is bad exactly without a leading slash or with a broken escape, and
      forbidden exactly when the decoded path climbs above the root. */
  lemma RelativeErrors(target: bytes)
    ensures Relative(target) == Err(BadTarget) <==>
              target == [] || target[0] != SLASH || Decode(PathPart(target)).None?
    ensures Relative(target) == Err(Forbidden) <==>
              target != [] && target[0] == SLASH && Decode(PathPart(target)).Some? &&
              Escapes(SplitOn(Decode(PathPart(target)).value[1..], SLASH))
  {
    hide Decode, Normalize, Escapes, SplitOn, Components, Survivors, Depth;
    if target != [] && target[0] == SLASH && Decode(PathPart(target)).Some? {
      assert PathPart(target)[0] == SLASH;
      DecodedStart(PathPart(target));
      NormalizeMeaning(Decode(PathPart(target)).value);
    }
  }

  /** An accepted target gives a normal form whose join with any canonical root but `/` lies inside
      that root. */
  lemma PathPipeline(target: bytes, rs: seq<bytes>)
    requires Components(rs) && rs != [] && Relative(target).Ok?
    ensures Normalize([SLASH] + Relative(target).value) == Ok(Relative(target).value)
    ensures exists names :: Components(names) && Relative(target).value == Join(names, SLASH)
    ensures var joined := JoinRoot(Canonical(rs), Relative(target).value);
            joined.Ok? ==> PathIsWithinRoot(joined.value, Canonical(rs))
  {
    hide Decode, Normalize, Escapes, SplitOn, PathIsWithinRoot, Components, Survivors, Depth, Canonical, JoinRoot, Join;
    assert PathPart(target)[0] == SLASH;
    DecodedStart(PathPart(target));
    var path := Decode(PathPart(target)).value;
    NormalizeMeaning(path);
    JoinedIsWithin(rs, Survivors(SplitOn(path[1..], SLASH), 0));
  }
}
