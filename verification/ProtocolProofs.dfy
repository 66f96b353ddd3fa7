/** What every run of the accept/queue/worker protocol keeps. */
module ProtocolProofs {
  import opened Protocol

  // ---------------------------------------------------------- conservation

  /** Does the accept thread own connection `c`? */
  function AcceptOwns(a: Accept, c: int): nat {
    match a
    case Holding(d) => if c == d then 1 else 0
    case PushAsleep(d) => if c == d then 1 else 0
    case PushWoken(d) => if c == d then 1 else 0
    case PushFailed(d, _) => if c == d then 1 else 0
    case _ => 0
  }

  /** How often `c` occurs in a log or in the ring. */
  function Occ(xs: seq<int>, c: int): nat { multiset(xs)[c] }

  lemma OccSnoc(xs: seq<int>, x: int, c: int)
    ensures Occ(xs + [x], c) == Occ(xs, c) + (if x == c then 1 else 0)
  {}

  lemma OccConcat(xs: seq<int>, ys: seq<int>, c: int)
    ensures Occ(xs + ys, c) == Occ(xs, c) + Occ(ys, c)
  {}

  lemma OccHead(xs: seq<int>, c: int)
    requires xs != []
    ensures Occ(xs, c) == Occ(xs[1..], c) + (if xs[0] == c then 1 else 0)
  {
    assert xs == [xs[0]] + xs[1..];
  }

  /** In how many places connection `c` is: accept thread, ring, workers, closed. */
  function Places(s: State, c: int): nat {
    AcceptOwns(s.acc, c) + Occ(s.queue.items, c) + Sum(s.workers, OwnsConn(c)) + Occ(s.closed, c)
  }

  /** A worker slot holds a thread exactly when the pool has started it. */
  ghost predicate SlotsMatch(s: State) {
    && s.started <= |s.workers|
    && forall i :: 0 <= i < |s.workers| ==> (s.workers[i] == Unborn <==> i >= s.started)
  }

  lemma PlacesPush(s: State, wake: nat, c: int)
    requires Enabled(s, PushTry(wake))
    ensures Places(DoPush(s, wake), c) == Places(s, c)
  {
    hide Sum, Occ;
    if SomeAsleep(s.workers) { SumUpdate(s.workers, wake, Woken, OwnsConn(c)); }
    OccSnoc(s.queue.items, s.acc.c, c);
  }

  lemma PlacesPop(s: State, w: nat, c: int)
    requires Enabled(s, PopTry(w))
    ensures Places(DoPop(s, w), c) == Places(s, c)
  {
    hide Sum, Occ;
    SumUpdate(s.workers, w, DoPop(s, w).workers[w], OwnsConn(c));
    if s.queue.items != [] { OccHead(s.queue.items, c); }
  }

  /** A step of worker `w` alone: it starts, wakes, closes its connection, counts its end or breaks. */
  predicate StepOf(s: State, l: Label, w: nat) {
    || l == CloseConn(w) || l == CountEnd(w) || l == SpuriousWake(w) || l == PopBreaks(w)
    || (l == Spawn && w == s.started)
  }

  lemma PlacesWorker(s: State, l: Label, w: nat, c: int)
    requires SlotsMatch(s) && Enabled(s, l) && StepOf(s, l, w)
    ensures Places(Next(s, l), c) == Places(s, c)
  {
    hide Sum, Occ, DoPush, DoPop;
    SumUpdate(s.workers, w, Next(s, l).workers[w], OwnsConn(c));
    if l.CloseConn? { OccSnoc(s.closed, s.workers[w].c, c); }
  }

  lemma OccEmpty(c: int)
    ensures Occ([], c) == 0
  {}

  /** The accept thread's own steps, and shutdown and destruction. */
  lemma PlacesAccept(s: State, l: Label, c: int)
    requires Enabled(s, l) && (l.CloseFailed? || l.ShutdownQueue? || l.Destroy?)
    ensures Places(Next(s, l), c) == Places(s, c)
  {
    hide Sum, Occ, DoPush, DoPop, DoCountEnd;
    match l
    case CloseFailed => OccSnoc(s.closed, s.acc.c, c);
    case ShutdownQueue => SumWakeAll(s.workers, OwnsConn(c));
    case Destroy =>
      OccConcat(s.closed, s.queue.items, c);
      OccEmpty(c);
  }

  /** No step but accept changes the number of places of any connection. */
  lemma PlacesStep(s: State, l: Label, c: int)
    requires SlotsMatch(s) && Enabled(s, l)
    ensures Places(Next(s, l), c) == Places(s, c) + (if l.AcceptConn? && c == s.next then 1 else 0)
  {
    hide Sum, Occ, DoPush, DoPop, DoCountEnd, OwnsConn;
    match l
    case PushTry(wake) => PlacesPush(s, wake, c);
    case PopTry(w) => PlacesPop(s, w, c);
    case PopBreaks(w) => PlacesWorker(s, l, w, c);
    case Spawn => PlacesWorker(s, l, s.started, c);
    case SpuriousWake(w) => PlacesWorker(s, l, w, c);
    case CloseConn(w) => PlacesWorker(s, l, w, c);
    case CountEnd(w) => PlacesWorker(s, l, w, c);
    case ShutdownQueue => PlacesAccept(s, l, c);
    case CloseFailed => PlacesAccept(s, l, c);
    case Destroy => PlacesAccept(s, l, c);
    case _ =>
  }

  // --------------------------------------------------------------- invariant

  predicate InLoop(a: Accept) {
    a.LoopHead? || a.InAccept? || a.Holding? || a.PushAsleep? || a.PushWoken? || a.PushFailed? || a.Counting?
  }

  predicate Ending(a: Accept) { a.Joining? || a.Destroying? || a.Returned? }

  /** How many workers the accept thread has seen exit. */
  function Joined(s: State): nat {
    match s.acc
    case Joining(j) => j
    case Destroying => s.started
    case Returned => s.started
    case _ => 0
  }

  /** Phases of startup, serving and shutdown, and the order of the queue. */
  ghost predicate Shape(s: State) {
    && SlotsMatch(s)
    && 0 < |s.workers|
    && |s.queue.items| <= s.queue.capacity
    && (s.acc.Starting? ==> s.started < |s.workers|)
    && (InLoop(s.acc) || s.pushed != [] ==> s.started == |s.workers|)
    && (s.queue.down <==> Ending(s.acc))
    && Joined(s) <= s.started
    && if s.acc.Returned? then s.queue.items == [] && s.popped <= s.pushed else s.popped + s.queue.items == s.pushed
  }

  /** A pop reports shutdown only on an empty queue that is shut down; joined workers have left. */
  ghost predicate Drained(s: State) {
    && (forall i :: 0 <= i < |s.workers| && s.workers[i] == Exited ==>
          s.queue.down && s.queue.items == [] && s.popped == s.pushed)
    && (forall i :: 0 <= i < Joined(s) && i < |s.workers| ==> Left(s.workers[i]))
  }

  /** Nobody sleeps through work: unclaimed items are covered by workers already woken, up to one for
      each worker whose pop failed, since it may have taken a signal with it; the producer sleeps only
      on a full queue, and after shutdown no worker sleeps. */
  ghost predicate NoLostWakeup(s: State) {
    && (SomeAsleep(s.workers) ==> |s.queue.items| <= Sum(s.workers, IsWoken()) + Sum(s.workers, IsBroken()))
    && (s.acc.PushAsleep? ==> |s.queue.items| == s.queue.capacity)
    && (s.queue.down ==> !SomeAsleep(s.workers))
  }

  ghost predicate Inv(s: State) {
    && Shape(s)
    && Drained(s)
    && NoLostWakeup(s)
    && forall c :: Places(s, c) == if 0 <= c < s.next then 1 else 0
  }

  /** What holds of startup, order and draining; the part of the invariant no counting is needed for. */
  ghost predicate Core(s: State) { Shape(s) && Drained(s) }

  lemma CorePush(s: State, wake: nat)
    requires Core(s) && Enabled(s, PushTry(wake))
    ensures Core(DoPush(s, wake))
  {}

  lemma ShapePop(s: State, w: nat)
    requires Core(s) && Enabled(s, PopTry(w))
    ensures Shape(DoPop(s, w))
  {
    if s.queue.items != [] {
      assert s.queue.items == [s.queue.items[0]] + s.queue.items[1..];
      assert s.popped + s.queue.items == (s.popped + [s.queue.items[0]]) + s.queue.items[1..];
    }
  }

  lemma DrainedPop(s: State, w: nat)
    requires Core(s) && Enabled(s, PopTry(w))
    ensures Drained(DoPop(s, w))
  {
    assert s.queue.items == [] ==> s.popped + s.queue.items == s.popped;
    assert w < s.started;
    assert w < Joined(s) ==> Left(s.workers[w]);
  }

  lemma CorePop(s: State, w: nat)
    requires Core(s) && Enabled(s, PopTry(w))
    ensures Core(DoPop(s, w))
  {
    hide Shape, Drained, DoPop;
    ShapePop(s, w);
    DrainedPop(s, w);
  }

  predicate WorkerStep(l: Label) { l.Spawn? || l.SpuriousWake? || l.CloseConn? || l.CountEnd? || l.PopBreaks? }

  lemma CoreWorker(s: State, l: Label)
    requires Core(s) && Enabled(s, l) && WorkerStep(l)
    ensures Core(Next(s, l))
  {
    hide DoPush, DoPop;
  }

  predicate EndStep(l: Label) { l.ShutdownQueue? || l.JoinOne? || l.JoinedAll? || l.Destroy? }

  lemma CoreEnd(s: State, l: Label)
    requires Core(s) && Enabled(s, l) && EndStep(l)
    ensures Core(Next(s, l))
  {
    hide DoPush, DoPop, DoCountEnd;
  }

  lemma CoreStep(s: State, l: Label)
    requires Core(s) && Enabled(s, l)
    ensures Core(Next(s, l))
  {
    hide DoPush, DoPop, DoCountEnd;
    if WorkerStep(l) {
      CoreWorker(s, l);
    } else if EndStep(l) {
      CoreEnd(s, l);
    } else {
      match l
      case PushTry(wake) => CorePush(s, wake);
      case PopTry(w) => CorePop(s, w);
      case _ =>
    }
  }

  // -------------------------------------------------------- no lost wake-ups

  lemma WakePush(s: State, wake: nat)
    requires Core(s) && NoLostWakeup(s) && Enabled(s, PushTry(wake))
    ensures NoLostWakeup(DoPush(s, wake))
  {
    hide Sum;
    if SomeAsleep(s.workers) {
      SumUpdate(s.workers, wake, Woken, IsWoken());
      SumUpdate(s.workers, wake, Woken, IsBroken());
    }
  }

  lemma WakePop(s: State, w: nat)
    requires Core(s) && NoLostWakeup(s) && Enabled(s, PopTry(w))
    ensures NoLostWakeup(DoPop(s, w))
  {
    hide Sum;
    var ws := DoPop(s, w).workers;
    SumUpdate(s.workers, w, ws[w], IsWoken());
    SumUpdate(s.workers, w, ws[w], IsBroken());
    assert forall i :: 0 <= i < |ws| && i != w ==> ws[i] == s.workers[i];
  }

  lemma WakeWorker(s: State, l: Label, w: nat)
    requires Core(s) && NoLostWakeup(s) && Enabled(s, l) && StepOf(s, l, w)
    ensures NoLostWakeup(Next(s, l))
  {
    hide Sum, DoPush, DoPop;
    var ws := Next(s, l).workers;
    SumUpdate(s.workers, w, ws[w], IsWoken());
    SumUpdate(s.workers, w, ws[w], IsBroken());
    assert forall i :: 0 <= i < |ws| && i != w ==> ws[i] == s.workers[i];
  }

  lemma WakeStep(s: State, l: Label)
    requires Core(s) && NoLostWakeup(s) && Enabled(s, l)
    ensures NoLostWakeup(Next(s, l))
  {
    hide Sum, DoPush, DoPop, DoCountEnd, Drained;
    match l
    case PushTry(wake) => WakePush(s, wake);
    case PopTry(w) => WakePop(s, w);
    case PopBreaks(w) => WakeWorker(s, l, w);
    case Spawn => WakeWorker(s, l, s.started);
    case SpuriousWake(w) => WakeWorker(s, l, w);
    case CloseConn(w) => WakeWorker(s, l, w);
    case CountEnd(w) => WakeWorker(s, l, w);
    case _ =>
  }

  // ---------------------------------------------------------------- all runs

  lemma InvInit(capacity: nat, n: nat)
    requires n > 0
    ensures Inv(Init(capacity, n))
  {
    var s := Init(capacity, n);
    forall c ensures Places(s, c) == 0 {
      SumZero(s.workers, OwnsConn(c));
    }
    assert s.popped + s.queue.items == s.pushed;
  }

  lemma NextIds(s: State, l: Label)
    requires Enabled(s, l)
    ensures Next(s, l).next == s.next + (if l.AcceptConn? then 1 else 0)
  {}

  lemma InvStep(s: State, l: Label)
    requires Inv(s) && Enabled(s, l)
    ensures Inv(Next(s, l))
  {
    hide Places, Enabled;
    CoreStep(s, l);
    WakeStep(s, l);
    NextIds(s, l);
    var t := Next(s, l);
    forall c ensures Places(t, c) == if 0 <= c < t.next then 1 else 0 {
      PlacesStep(s, l, c);
    }
  }

  lemma {:induction false} InvRun(s: State, ls: seq<Label>, t: State)
    requires Inv(s) && Reaches(s, ls, t)
    ensures Inv(t)
    decreases |ls|
  {
    hide Inv, Enabled, Next;
    if ls != [] {
      InvStep(s, ls[0]);
      InvRun(Next(s, ls[0]), ls[1..], t);
    }
  }

  /** A state some run of a server with `n` workers and a queue of `capacity` can be in. */
  ghost predicate Reachable(capacity: nat, n: nat, t: State) {
    n > 0 && exists ls :: Reaches(Init(capacity, n), ls, t)
  }

  lemma ReachableInv(capacity: nat, n: nat, t: State)
    requires Reachable(capacity, n, t)
    ensures Inv(t)
  {
    hide Inv;
    var ls :| Reaches(Init(capacity, n), ls, t);
    InvInit(capacity, n);
    InvRun(Init(capacity, n), ls, t);
  }

  /** Descriptor conservation: in every interleaving each accepted connection is in exactly one of
      accept thread, ring, one worker, closed; nothing else is anywhere; and when the server returns
      every accepted connection has been closed exactly once, whether its push failed, a worker served
      it, or it was left in the ring because the pop of every worker had failed. */
  lemma DescriptorConservation(capacity: nat, n: nat, t: State, c: int)
    requires Reachable(capacity, n, t)
    ensures 0 <= c < t.next ==> Places(t, c) == 1
    ensures !(0 <= c < t.next) ==> Places(t, c) == 0
    ensures Occ(t.closed, c) <= 1
    ensures t.acc.Returned? && 0 <= c < t.next ==> Occ(t.closed, c) == 1
  {
    hide Occ, Sum, NoLostWakeup;
    ReachableInv(capacity, n, t);
    assert Places(t, c) == if 0 <= c < t.next then 1 else 0;
    if t.acc.Returned? {
      SumZero(t.workers, OwnsConn(c));
      OccEmpty(c);
    }
  }

  lemma SizesStep(s: State, l: Label)
    requires Enabled(s, l)
    ensures |Next(s, l).workers| == |s.workers| && Next(s, l).queue.capacity == s.queue.capacity
  {}

  lemma {:induction false} SizesStay(s: State, ls: seq<Label>, t: State)
    requires Reaches(s, ls, t)
    ensures |t.workers| == |s.workers| && t.queue.capacity == s.queue.capacity
    decreases |ls|
  {
    hide Enabled, Next;
    if ls != [] {
      SizesStep(s, ls[0]);
      SizesStay(Next(s, ls[0]), ls[1..], t);
    }
  }

  lemma ReachableWorkers(capacity: nat, n: nat, t: State)
    requires Reachable(capacity, n, t)
    ensures |t.workers| == n && t.queue.capacity == capacity
  {
    var ls :| Reaches(Init(capacity, n), ls, t);
    SizesStay(Init(capacity, n), ls, t);
  }

  /** Connections are left for destroy to close only if the pop of every worker failed. */
  lemma LeftoversNeedFailures(capacity: nat, n: nat, t: State)
    requires Reachable(capacity, n, t) && t.acc.Destroying? && t.queue.items != []
    ensures |t.workers| == t.started == n && forall i :: 0 <= i < n ==> t.workers[i] == Broken
  {
    hide Places, NoLostWakeup, Sum;
    ReachableInv(capacity, n, t);
    ReachableWorkers(capacity, n, t);
    assert t.pushed != [];
    forall i | 0 <= i < n ensures t.workers[i] == Broken {
      assert Left(t.workers[i]);
    }
  }

  lemma SumPositive(ws: seq<Worker>, f: Worker -> nat)
    requires Sum(ws, f) > 0
    ensures exists i :: 0 <= i < |ws| && f(ws[i]) > 0
  {
    if forall i :: 0 <= i < |ws| ==> f(ws[i]) == 0 {
      SumZero(ws, f);
    }
  }

  ghost predicate NoneBroken(s: State) { forall i :: 0 <= i < |s.workers| ==> s.workers[i] != Broken }

  lemma BrokenStep(s: State, l: Label)
    requires SlotsMatch(s) && Enabled(s, l)
    ensures NoneBroken(Next(s, l)) <==> NoneBroken(s) && !l.PopBreaks?
  {
    var ws := Next(s, l).workers;
    if !NoneBroken(s) {
      var i :| 0 <= i < |s.workers| && s.workers[i] == Broken;
      assert ws[i] == Broken;
    } else if l.PopBreaks? {
      assert ws[l.w] == Broken;
    }
  }

  /** No worker is broken exactly when no pop of the run has failed. */
  lemma {:induction false} BrokenMeansFailed(s: State, ls: seq<Label>, t: State)
    requires Inv(s) && Reaches(s, ls, t)
    ensures NoneBroken(t) <==> NoneBroken(s) && forall i :: 0 <= i < |ls| ==> !ls[i].PopBreaks?
    decreases |ls|
  {
    hide Enabled, Next, NoneBroken, Places, NoLostWakeup, Drained;
    if ls != [] {
      InvStep(s, ls[0]);
      BrokenStep(s, ls[0]);
      BrokenMeansFailed(Next(s, ls[0]), ls[1..], t);
      assert forall i :: 1 <= i < |ls| ==> ls[i] == ls[1..][i - 1];
    }
  }

  /** No lost wake-ups: in every reachable state with a worker asleep and not signalled, the queued
      connections are at most the woken workers that have not rechecked yet, plus one for each worker
      whose pop failed; the producer sleeps only on a full queue; and after shutdown nobody sleeps. */
  lemma NoLostWakeups(capacity: nat, n: nat, t: State)
    requires Reachable(capacity, n, t)
    ensures SomeAsleep(t.workers) ==> |t.queue.items| <= Sum(t.workers, IsWoken()) + Sum(t.workers, IsBroken())
    ensures SomeAsleep(t.workers) && NoneBroken(t) ==> |t.queue.items| <= Sum(t.workers, IsWoken())
    ensures t.acc.PushAsleep? ==> |t.queue.items| == t.queue.capacity
    ensures t.queue.down ==> !SomeAsleep(t.workers) && !t.acc.PushAsleep?
  {
    hide Places;
    ReachableInv(capacity, n, t);
    if NoneBroken(t) {
      SumZero(t.workers, IsBroken());
    }
  }

  /** Work is never stuck while pops do not fail: whenever connections are queued, some worker is awake
      and free to run or about to be, and none sleeps unless another has been woken; so no state at rest
      has both queued work and a sleeping worker. */
  lemma NoStuckWork(capacity: nat, n: nat, t: State)
    requires Reachable(capacity, n, t) && t.queue.items != [] && NoneBroken(t)
    ensures SomeAsleep(t.workers) ==> exists w :: 0 <= w < |t.workers| && t.workers[w] == Woken
    ensures exists w :: 0 <= w < |t.workers| && (CanPop(t.workers[w]) || t.workers[w].Busy? || t.workers[w].Finishing?)
  {
    hide Places, Sum;
    ReachableInv(capacity, n, t);
    NoLostWakeups(capacity, n, t);
    if SomeAsleep(t.workers) {
      SumPositive(t.workers, IsWoken());
      var w :| 0 <= w < |t.workers| && IsWoken()(t.workers[w]) > 0;
      assert CanPop(t.workers[w]);
    } else {
      var w := t.workers[0];
      assert w != Asleep && w != Unborn && w != Exited && w != Broken;
    }
  }

  lemma StaysDrained(s: State, l: Label)
    requires Shape(s) && s.queue.down && s.queue.items == [] && Enabled(s, l)
    ensures var t := Next(s, l);
            t.queue.down && t.queue.items == [] && t.pushed == s.pushed && t.popped == s.popped
  {
    hide SlotsMatch, WakeAll, Signal, SomeAsleep;
  }

  lemma {:induction false} NoMorePushes(s: State, ls: seq<Label>, t: State)
    requires Inv(s) && s.queue.down && s.queue.items == [] && Reaches(s, ls, t)
    ensures t.pushed == s.pushed && t.popped == s.popped
    decreases |ls|
  {
    hide Places, NoLostWakeup, Drained, SlotsMatch, Enabled, Next;
    if ls != [] {
      InvStep(s, ls[0]);
      StaysDrained(s, ls[0]);
      NoMorePushes(Next(s, ls[0]), ls[1..], t);
    }
  }

  /** Graceful drain: once any pop has reported shutdown, every pushed connection has been popped,
      in the order of the pushes, and no later push succeeds, whatever pops failed before. */
  lemma GracefulDrain(capacity: nat, n: nat, t: State, ls: seq<Label>, u: State)
    requires Reachable(capacity, n, t) && Reaches(t, ls, u)
    requires exists i :: 0 <= i < |t.workers| && t.workers[i] == Exited
    ensures t.popped == t.pushed && t.queue.items == []
    ensures u.pushed == t.pushed && u.popped == t.popped
  {
    hide Places, NoLostWakeup, SlotsMatch;
    ReachableInv(capacity, n, t);
    NoMorePushes(t, ls, u);
  }

  // ------------------------------------------------------ shutdown terminates

  /** What a worker still has to do once the queue is shut down. */
  function Work(): Worker -> nat {
    (w: Worker) =>
      match w
      case Busy(_) => 3
      case Finishing(_) => 2
      case Exited => 0
      case Broken => 0
      case _ => 1
  }

  function AcceptWork(s: State): nat {
    match s.acc
    case Joining(j) => 2 + (if s.started > j then s.started - j else 0)
    case Destroying => 1
    case _ => 0
  }

  /** Queued connections, busy workers, live workers and the rest of the cleanup. */
  function Measure(s: State): nat {
    3 * |s.queue.items| + Sum(s.workers, Work()) + AcceptWork(s) + (if s.abort then 0 else 1)
  }

  lemma MeasureWorker(s: State, l: Label, w: nat)
    requires Inv(s) && s.queue.down && Enabled(s, l)
    requires l == PopTry(w) || l == PopBreaks(w) || l == CloseConn(w) || l == CountEnd(w)
    ensures Measure(Next(s, l)) < Measure(s)
  {
    hide Sum, Places, Shape, Drained;
    SumUpdate(s.workers, w, Next(s, l).workers[w], Work());
  }

  /** After shutdown every step, whoever takes it, brings the end nearer. */
  lemma ShutdownDecreases(s: State, l: Label)
    requires Inv(s) && s.queue.down && Enabled(s, l)
    ensures Measure(Next(s, l)) < Measure(s) && Next(s, l).queue.down
  {
    hide Sum, Places;
    match l
    case PopTry(w) => MeasureWorker(s, l, w);
    case PopBreaks(w) => MeasureWorker(s, l, w);
    case CloseConn(w) => MeasureWorker(s, l, w);
    case CountEnd(w) => MeasureWorker(s, l, w);
    case _ =>
  }

  /** The steps the threads take by themselves: no peer, no signal, no time-out, no spurious wake-up and
      no failure is needed. */
  predicate Willing(l: Label) {
    match l
    case Spawn | EnterAccept | LeaveLoop | PushTry(_) | CloseFailed | CountStart => true
    case PopTry(_) | CloseConn(_) | CountEnd(_) => true
    case ShutdownQueue | JoinOne | JoinedAll | Destroy => true
    case _ => false
  }

  /** After shutdown some thread can always move until the server has returned. */
  lemma ShutdownProgresses(s: State) returns (l: Label)
    requires Inv(s) && s.queue.down && !s.acc.Returned?
    ensures Enabled(s, l) && Willing(l)
  {
    hide Sum, Places;
    if s.acc == Destroying {
      return Destroy;
    }
    var j := s.acc.joined;
    if j >= s.started {
      return JoinedAll;
    }
    assert s.workers[j] != Unborn && s.workers[j] != Asleep;
    match s.workers[j]
    case AtPop => return PopTry(j);
    case Woken => return PopTry(j);
    case Busy(_) => return CloseConn(j);
    case Finishing(_) => return CountEnd(j);
    case Exited => return JoinOne;
    case Broken => return JoinOne;
  }

  lemma AllClosed(t: State)
    requires Inv(t) && t.acc.Returned?
    ensures forall c :: 0 <= c < t.next ==> Occ(t.closed, c) == 1
  {
    hide Occ, Sum, NoLostWakeup;
    forall c | 0 <= c < t.next ensures Occ(t.closed, c) == 1 {
      assert Places(t, c) == 1;
      SumZero(t.workers, OwnsConn(c));
      OccEmpty(c);
    }
  }

  lemma {:induction false} ShutdownRun(s: State, ls: seq<Label>, t: State)
    requires Inv(s) && s.queue.down && Reaches(s, ls, t)
    ensures |ls| + Measure(t) <= Measure(s)
    ensures (forall l :: !Enabled(t, l)) ==> t.acc.Returned? && forall c :: 0 <= c < t.next ==> Occ(t.closed, c) == 1
    decreases |ls|
  {
    hide Measure, Enabled, Next, Places;
    if ls != [] {
      InvStep(s, ls[0]);
      ShutdownDecreases(s, ls[0]);
      ShutdownRun(Next(s, ls[0]), ls[1..], t);
    } else if !t.acc.Returned? {
      var l := ShutdownProgresses(t);
    } else {
      AllClosed(t);
    }
  }

  /** Once the queue is shut down the server comes to its end: no run is longer than the measure of
      queued connections, busy and live workers, and every run that cannot be extended has returned,
      with all connections closed exactly once. */
  lemma ShutdownTerminates(capacity: nat, n: nat, s: State, ls: seq<Label>, t: State)
    requires Reachable(capacity, n, s) && s.queue.down && Reaches(s, ls, t)
    ensures |ls| <= Measure(s)
    ensures (forall l :: !Enabled(t, l)) ==> t.acc.Returned? && forall c :: 0 <= c < t.next ==> Occ(t.closed, c) == 1
  {
    hide Measure, Enabled, Next, Places, Occ;
    ReachableInv(capacity, n, s);
    ShutdownRun(s, ls, t);
  }

  // ------------------------------------------------------- why the server stops

  /** The accept thread gives a connection up for good only after an abort, and leaves its loop only then
      or because a worker could not be started. */
  ghost predicate Reasons(s: State) {
    && (PushReady(s.acc) || s.acc.PushAsleep? ==> s.acc.c >= 0)
    && (s.acc.PushFailed? && s.acc.stop ==> s.abort)
    && (s.acc == Leaving || Ending(s.acc) ==> s.abort || s.started < |s.workers|)
  }

  lemma PopKeepsPhase(s: State, w: nat)
    requires w < |s.workers|
    ensures var t := DoPop(s, w);
            && t.abort == s.abort && t.started == s.started && |t.workers| == |s.workers|
            && t.acc == if s.acc.PushAsleep? && s.queue.items != [] then PushWoken(s.acc.c) else s.acc
  {}

  lemma ReasonsStep(s: State, l: Label)
    requires Shape(s) && Reasons(s) && Enabled(s, l)
    ensures Reasons(Next(s, l))
  {
    hide SlotsMatch, WakeAll, Signal, SomeAsleep, DoPop;
    if l.PopTry? {
      PopKeepsPhase(s, l.w);
    }
  }

  lemma {:induction false} ReasonsRun(s: State, ls: seq<Label>, t: State)
    requires Inv(s) && Reasons(s) && Reaches(s, ls, t)
    ensures Reasons(t)
    decreases |ls|
  {
    hide Enabled, Next, Reasons, Places, NoLostWakeup, Drained, SlotsMatch;
    if ls != [] {
      InvStep(s, ls[0]);
      ReasonsStep(s, ls[0]);
      ReasonsRun(Next(s, ls[0]), ls[1..], t);
    }
  }

  /** In every reachable state: a push has failed for good only after an abort, and the accept thread has
      left its loop only after an abort or a worker that could not be started. A full queue is no reason:
      there the producer waits. */
  lemma StopsForAReason(capacity: nat, n: nat, t: State)
    requires Reachable(capacity, n, t)
    ensures t.acc.PushFailed? && t.acc.stop ==> t.abort
    ensures t.acc == Leaving || Ending(t.acc) ==> t.abort || t.started < n
    ensures PushReady(t.acc) && |t.queue.items| == capacity && !t.abort ==>
              forall wake :: Enabled(t, PushTry(wake)) ==> Next(t, PushTry(wake)) == t.(acc := PushAsleep(t.acc.c))
  {
    hide Places, NoLostWakeup, Drained, SlotsMatch;
    var ls :| Reaches(Init(capacity, n), ls, t);
    ReachableInv(capacity, n, t);
    ReachableWorkers(capacity, n, t);
    InvInit(capacity, n);
    ReasonsRun(Init(capacity, n), ls, t);
  }

  /** Nothing but the ordinary: no signal, no failed start, no failed push. */
  predicate Ordinary(l: Label) { !l.SignalAbort? && !l.SpawnFails? && !l.PushBreaks? }

  /** The accept thread is at its work, and every connection a worker took it still owns or has closed. */
  ghost predicate AtWork(s: State) {
    && !s.abort && (s.acc.Starting? || (InLoop(s.acc) && !s.acc.PushFailed?))
    && forall c :: Occ(s.closed, c) + Sum(s.workers, OwnsConn(c)) == Occ(s.popped, c)
  }

  lemma AtWorkPhase(s: State, l: Label)
    requires Shape(s) && Reasons(s) && !s.abort && Enabled(s, l) && Ordinary(l)
    requires s.acc.Starting? || (InLoop(s.acc) && !s.acc.PushFailed?)
    ensures var t := Next(s, l);
            && !t.abort && (t.acc.Starting? || (InLoop(t.acc) && !t.acc.PushFailed?))
            && (!l.PopTry? ==> t.popped == s.popped)
            && (!l.CloseConn? ==> t.closed == s.closed)
  {
    hide SlotsMatch, WakeAll, Signal, SomeAsleep;
  }

  lemma OwnersStep(s: State, l: Label, c: int)
    requires SlotsMatch(s) && Enabled(s, l) && Ordinary(l) && !l.CloseFailed? && !l.Destroy?
    requires Occ(s.closed, c) + Sum(s.workers, OwnsConn(c)) == Occ(s.popped, c)
    ensures var t := Next(s, l);
            Occ(t.closed, c) + Sum(t.workers, OwnsConn(c)) == Occ(t.popped, c)
  {
    hide Sum, Occ;
    var f := OwnsConn(c);
    match l
    case PushTry(wake) => if SomeAsleep(s.workers) { SumUpdate(s.workers, wake, Woken, f); }
    case PopTry(w) =>
      SumUpdate(s.workers, w, DoPop(s, w).workers[w], f);
      if s.queue.items != [] { OccSnoc(s.popped, s.queue.items[0], c); }
    case PopBreaks(w) => SumUpdate(s.workers, w, Broken, f);
    case Spawn => SumUpdate(s.workers, s.started, AtPop, f);
    case SpuriousWake(w) => SumUpdate(s.workers, w, Woken, f);
    case CloseConn(w) =>
      SumUpdate(s.workers, w, Finishing(s.workers[w].c), f);
      OccSnoc(s.closed, s.workers[w].c, c);
    case CountEnd(w) => SumUpdate(s.workers, w, AtPop, f);
    case ShutdownQueue => SumWakeAll(s.workers, f);
    case _ =>
  }

  lemma ShapeSlots(s: State)
    requires Shape(s)
    ensures SlotsMatch(s)
  {}

  lemma AtWorkStep(s: State, l: Label)
    requires Shape(s) && Reasons(s) && AtWork(s) && Enabled(s, l) && Ordinary(l)
    ensures AtWork(Next(s, l))
  {
    hide Occ, Sum, Shape, Reasons, Next;
    AtWorkPhase(s, l);
    ShapeSlots(s);
    var t := Next(s, l);
    forall c ensures Occ(t.closed, c) + Sum(t.workers, OwnsConn(c)) == Occ(t.popped, c) {
      OwnersStep(s, l, c);
    }
  }

  lemma {:induction false} AtWorkRun(s: State, ls: seq<Label>, t: State)
    requires Inv(s) && Reasons(s) && AtWork(s) && Reaches(s, ls, t)
    requires forall i :: 0 <= i < |ls| ==> Ordinary(ls[i])
    ensures AtWork(t)
    decreases |ls|
  {
    hide Enabled, Next, Reasons, AtWork, Places, NoLostWakeup, Drained, SlotsMatch, Ordinary;
    if ls != [] {
      InvStep(s, ls[0]);
      ReasonsStep(s, ls[0]);
      AtWorkStep(s, ls[0]);
      AtWorkRun(Next(s, ls[0]), ls[1..], t);
    }
  }

  /** Without a signal, a failed start or a failed push the accept thread stays at its work, however full
      the queue gets, and only workers close connections: each one closed was popped by a worker. */
  lemma OnlyWorkersClose(capacity: nat, n: nat, ls: seq<Label>, t: State, c: int)
    requires n > 0 && Reaches(Init(capacity, n), ls, t)
    requires forall i :: 0 <= i < |ls| ==> Ordinary(ls[i])
    ensures t.acc.Starting? || (InLoop(t.acc) && !t.acc.PushFailed?)
    ensures Occ(t.closed, c) + Sum(t.workers, OwnsConn(c)) == Occ(t.popped, c)
  {
    hide Places, NoLostWakeup, Drained, Sum, Occ;
    var s := Init(capacity, n);
    InvInit(capacity, n);
    forall c ensures Occ(s.closed, c) + Sum(s.workers, OwnsConn(c)) == Occ(s.popped, c) {
      SumZero(s.workers, OwnsConn(c));
      OccEmpty(c);
    }
    AtWorkRun(s, ls, t);
  }

  // ------------------------------------------------------- abort leads to shutdown

  /** How many of its own steps the accept thread still takes before it leaves the loop, once the abort
      flag is set. */
  function Rank(s: State): nat {
    match s.acc
    case Starting => if s.started < |s.workers| then 1 + (|s.workers| - s.started) else 1
    case LoopHead => 1
    case InAccept => 5
    case Holding(_) => 3
    case PushAsleep(_) => 4
    case PushWoken(_) => 3
    case PushFailed(_, _) => 1
    case Counting(_) => 2
    case _ => 0
  }

  /** The steps of the accept thread in front of the shutdown. */
  predicate AcceptStep(l: Label) {
    || l.Spawn? || l.SpawnFails? || l.EnterAccept? || l.AcceptFails? || l.AcceptConn? || l.LeaveLoop?
    || l.PushTry? || l.PushBreaks? || l.PushWake? || l.CloseFailed? || l.CountStart?
  }

  function AcceptSteps(ls: seq<Label>): nat {
    if ls == [] then 0 else (if AcceptStep(ls[0]) then 1 else 0) + AcceptSteps(ls[1..])
  }

  predicate BeforeShutdown(a: Accept) { a.Starting? || InLoop(a) }

  /** With the flag set, each step of the accept thread brings it nearer to the end of its loop, and no
      step of another thread takes it back. */
  lemma AbortDecreases(s: State, l: Label)
    requires s.abort && Enabled(s, l)
    ensures Next(s, l).abort
    ensures AcceptStep(l) ==> Rank(Next(s, l)) < Rank(s)
    ensures !AcceptStep(l) ==> Rank(Next(s, l)) <= Rank(s)
  {
    hide WakeAll, Sum, SomeAsleep;
  }

  /** The steps that do not wait for `accept` to return. */
  predicate OwnStep(l: Label) { AcceptStep(l) && !l.AcceptFails? && !l.AcceptConn? }

  lemma TryPush(s: State) returns (l: Label)
    requires PushReady(s.acc)
    ensures l.PushTry? && Enabled(s, l)
  {
    if SomeAsleep(s.workers) {
      var w :| 0 <= w < |s.workers| && s.workers[w] == Asleep;
      return PushTry(w);
    }
    return PushTry(0);
  }

  /** Outside `accept` it can always take one, asleep on a full queue or not: that wait is a timed one. */
  lemma AbortProgresses(s: State) returns (l: Label)
    requires s.abort && BeforeShutdown(s.acc) && !s.acc.InAccept? && Shape(s)
    ensures OwnStep(l) && Enabled(s, l)
  {
    match s.acc
    case Starting => return Spawn;
    case LoopHead => return LeaveLoop;
    case PushAsleep(_) => return PushWake;
    case PushFailed(_, _) => return CloseFailed;
    case Counting(_) => return CountStart;
    case Holding(_) => l := TryPush(s);
    case PushWoken(_) => l := TryPush(s);
  }

  lemma {:induction false} AbortRun(s: State, ls: seq<Label>, t: State)
    requires s.abort && Reaches(s, ls, t)
    ensures t.abort && AcceptSteps(ls) + Rank(t) <= Rank(s)
    decreases |ls|
  {
    hide Enabled, Next, Rank, AcceptStep;
    if ls != [] {
      AbortDecreases(s, ls[0]);
      AbortRun(Next(s, ls[0]), ls[1..], t);
    }
  }

  lemma InvShape(s: State)
    requires Inv(s)
    ensures Shape(s)
  {}

  /** With the abort flag set the accept thread is at most its rank of own steps away from the shutdown,
      in every run: at most 5 once the workers are started. It can take one whenever it is not there
      yet, except exactly inside `accept`, which it leaves only when `accept` returns. */
  lemma AbortLeadsToShutdown(capacity: nat, n: nat, s: State, ls: seq<Label>, t: State)
    requires Reachable(capacity, n, s) && s.abort && Reaches(s, ls, t)
    ensures AcceptSteps(ls) <= Rank(s) <= if s.acc.Starting? then |s.workers| + 1 else 5
    ensures AcceptSteps(ls) == Rank(s) ==> !BeforeShutdown(t.acc)
    ensures BeforeShutdown(t.acc) ==> ((exists l :: OwnStep(l) && Enabled(t, l)) <==> !t.acc.InAccept?)
  {
    hide Next, Inv;
    ReachableInv(capacity, n, s);
    InvRun(s, ls, t);
    AbortRun(s, ls, t);
    if BeforeShutdown(t.acc) && !t.acc.InAccept? {
      InvShape(t);
      var l := AbortProgresses(t);
    }
  }

  lemma TwoSteps(s: State, a: Label, b: Label)
    requires Enabled(s, a) && Enabled(Next(s, a), b)
    ensures Reaches(s, [a, b], Next(Next(s, a), b))
  {
    hide Enabled, Next;
    var later := [b];
    assert [a, b][1..] == later;
    assert later[1..] == [];
    assert Reaches(Next(Next(s, a), b), [], Next(Next(s, a), b));
  }

  /** The race the loop does not close: a signal handled between the test of the flag and `accept`, or by
      another thread while `accept` waits. The flag is set, and only a return of `accept` moves the
      accept thread on. */
  lemma SignalMissed(s: State)
    requires s.acc == LoopHead && !s.abort
    ensures var t := s.(acc := InAccept, abort := true);
            && Reaches(s, [EnterAccept, SignalAbort], t)
            && forall l :: Enabled(t, l) && AcceptStep(l) ==> l.AcceptFails? || l.AcceptConn?
  {
    TwoSteps(s, EnterAccept, SignalAbort);
  }

  /** A push on a queue that is shut down is refused for good: the connection stays with the accept
      thread, which will close it and leave. */
  lemma ShutQueueRefuses(s: State, wake: nat)
    requires Enabled(s, PushTry(wake)) && s.queue.down
    ensures Enabled(Next(s, PushTry(wake)), CloseFailed)
    ensures Reaches(s, [PushTry(wake), CloseFailed], s.(closed := s.closed + [s.acc.c], acc := Leaving))
  {
    hide Reaches;
    TwoSteps(s, PushTry(wake), CloseFailed);
  }

  /** A push that fails, before, during or after its wait, costs that one connection: it is closed and
      the accept thread goes on, unless it was told to stop. */
  lemma FailedPush(s: State)
    requires PushReady(s.acc) || s.acc.PushAsleep?
    ensures Reaches(s, [PushBreaks, CloseFailed],
                    s.(closed := s.closed + [s.acc.c], acc := if s.abort then Leaving else LoopHead))
  {
    hide Reaches;
    TwoSteps(s, PushBreaks, CloseFailed);
  }

  /** A worker that cannot be started ends the start: the queue is shut down and the others are joined. */
  lemma PartialStart(s: State)
    requires s.acc == Starting && s.started < |s.workers|
    ensures Reaches(s, [SpawnFails, ShutdownQueue],
                    s.(queue := s.queue.(down := true), workers := WakeAll(s.workers), acc := Joining(0)))
  {
    hide Reaches;
    TwoSteps(s, SpawnFails, ShutdownQueue);
  }

  // ------------------------------------------------------------ the server rests only when idle

  /** Waiting for a connection, with nothing left to do. */
  ghost predicate Idle(s: State) {
    s.acc == InAccept && s.queue.items == [] && forall i :: 0 <= i < |s.workers| ==> s.workers[i] == Asleep
  }

  /** A worker that neither sleeps nor has left can go on. */
  lemma WorkerMoves(s: State, w: nat) returns (l: Label)
    requires w < |s.workers| && s.workers[w] != Asleep && s.workers[w] != Unborn && !Left(s.workers[w])
    ensures Willing(l) && Enabled(s, l)
  {
    match s.workers[w]
    case AtPop => return PopTry(w);
    case Woken => return PopTry(w);
    case Busy(_) => return CloseConn(w);
    case Finishing(_) => return CountEnd(w);
  }

  /** Queued work finds a worker to move. */
  lemma WorkMoves(capacity: nat, n: nat, t: State) returns (l: Label)
    requires Reachable(capacity, n, t) && t.queue.items != [] && NoneBroken(t)
    ensures Willing(l) && Enabled(t, l)
  {
    hide Reachable, Enabled, Willing;
    NoStuckWork(capacity, n, t);
    var w :| 0 <= w < |t.workers| && (CanPop(t.workers[w]) || t.workers[w].Busy? || t.workers[w].Finishing?);
    l := WorkerMoves(t, w);
  }

  /** Inside `accept` without queued work, either every worker sleeps or one can go on. */
  lemma AcceptMoves(s: State) returns (l: Label)
    requires Inv(s) && NoneBroken(s) && s.acc == InAccept && s.queue.items == [] && !Idle(s)
    ensures Willing(l) && Enabled(s, l)
  {
    hide Places, Sum, Willing, Enabled;
    var w :| 0 <= w < |s.workers| && s.workers[w] != Asleep;
    l := WorkerMoves(s, w);
  }

  /** Outside `accept`, awake, and before the shutdown the accept thread itself can go on. */
  lemma ThreadMoves(s: State) returns (l: Label)
    requires Shape(s) && !s.queue.down && !s.acc.InAccept? && !s.acc.PushAsleep?
    ensures Willing(l) && Enabled(s, l)
  {
    match s.acc
    case Starting => return Spawn;
    case LoopHead => return if s.abort then LeaveLoop else EnterAccept;
    case PushFailed(_, _) => return CloseFailed;
    case Counting(_) => return CountStart;
    case Holding(_) => l := TryPush(s);
    case PushWoken(_) => l := TryPush(s);
    case Leaving => return ShutdownQueue;
  }

  lemma NobodyMoves(s: State, l: Label)
    requires Inv(s) && (Idle(s) || s.acc.Returned?) && Willing(l)
    ensures !Enabled(s, l)
  {
    hide Places, Sum;
  }

  lemma Moves(capacity: nat, n: nat, t: State) returns (l: Label)
    requires capacity > 0 && Reachable(capacity, n, t) && NoneBroken(t) && !Idle(t) && !t.acc.Returned?
    ensures Willing(l) && Enabled(t, l)
  {
    hide Reachable, Places, Sum, Willing, Enabled, Idle;
    ReachableInv(capacity, n, t);
    ReachableWorkers(capacity, n, t);
    if t.queue.items != [] {
      l := WorkMoves(capacity, n, t);
    } else if t.queue.down {
      l := ShutdownProgresses(t);
    } else if t.acc.InAccept? {
      l := AcceptMoves(t);
    } else {
      l := ThreadMoves(t);
    }
  }

  /** No deadlock: in every reachable state in which no pop has failed, some thread can go on by itself,
      except exactly when the server has returned or is idle, and then every connection accepted so far
      has been closed once. No time-out is needed for that, not even by a producer asleep on a full queue. */
  lemma RestsOnlyIdle(capacity: nat, n: nat, t: State, c: int)
    requires capacity > 0 && Reachable(capacity, n, t) && NoneBroken(t)
    ensures (exists l :: Willing(l) && Enabled(t, l)) <==> !Idle(t) && !t.acc.Returned?
    ensures Idle(t) && 0 <= c < t.next ==> Occ(t.closed, c) == 1
  {
    hide Reachable, Sum, Willing, Enabled, Occ, NoLostWakeup;
    ReachableInv(capacity, n, t);
    if !Idle(t) && !t.acc.Returned? {
      var l := Moves(capacity, n, t);
    }
    forall l | Willing(l) && (Idle(t) || t.acc.Returned?) ensures !Enabled(t, l) {
      NobodyMoves(t, l);
    }
    if Idle(t) && 0 <= c < t.next {
      assert Places(t, c) == 1;
      SumZero(t.workers, OwnsConn(c));
      OccEmpty(c);
    }
  }
}
