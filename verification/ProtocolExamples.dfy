/** Runs that show where the protocol does not keep a promise, or what it keeps when calls fail. */
module ProtocolExamples {
  import opened Queue
  import opened Protocol
  import opened Accounting

  // ---------------------------------------------------------------- the counter drifts

  lemma ReachesCons(s: State, l: Label, ls: seq<Label>, t: State)
    requires Enabled(s, l) && Reaches(Next(s, l), ls, t)
    ensures Reaches(s, [l] + ls, t)
  {
    assert ([l] + ls)[1..] == ls;
  }

  lemma StaysPut(t: State)
    ensures Reaches(t, [], t)
  {}

  /** The state right after the worker has popped connection 0, its start not yet counted. */
  function JustPopped(): State {
    State(Fifo(1, [], false), [Busy(0)], 1, Counting(0), false, 1, [], [0], [0], 0, [], [], 0)
  }

  /** The worker closes it and counts its end, and only then the accept thread counts its start. */
  lemma DriftEnd(t: State) returns (ls: seq<Label>)
    requires t == JustPopped().(workers := [AtPop], closed := [0], finished := [0], zeroHits := 1,
                                acc := LoopHead, counted := [0], active := 1)
    ensures Reaches(JustPopped(), ls, t)
  {
    hide Reaches, DoPush, DoPop;
    var s5 := JustPopped();
    var s6 := s5.(workers := [Finishing(0)], closed := [0]);
    var s7 := s6.(workers := [AtPop], finished := [0], zeroHits := 1);
    StaysPut(t);
    assert Next(s7, CountStart) == t;
    ReachesCons(s7, CountStart, [], t);
    ls := [CountStart] + [];
    assert Next(s6, CountEnd(0)) == s7;
    ReachesCons(s6, CountEnd(0), ls, t);
    ls := [CountEnd(0)] + ls;
    assert Next(s5, CloseConn(0)) == s6;
    ReachesCons(s5, CloseConn(0), ls, t);
    ls := [CloseConn(0)] + ls;
  }

  /** The opening of that run: one worker, one connection accepted, pushed and popped. */
  lemma DriftPrefix(rest: seq<Label>, t: State) returns (ls: seq<Label>)
    requires Reaches(JustPopped(), rest, t)
    ensures Reaches(Init(1, 1), ls, t)
  {
    hide Reaches;
    var s0 := Init(1, 1);
    var s1 := s0.(workers := [AtPop], started := 1, acc := LoopHead);
    var s2 := s1.(acc := InAccept);
    var s3 := s2.(acc := Holding(0), next := 1);
    var s4 := s3.(queue := Fifo(1, [0], false), pushed := [0], acc := Counting(0));
    assert Next(s0, Spawn) == s1;
    assert Next(s1, EnterAccept) == s2;
    assert Next(s2, AcceptConn) == s3;
    assert Next(s3, PushTry(0)) == s4;
    assert Next(s4, PopTry(0)) == JustPopped();
    ReachesCons(s4, PopTry(0), rest, t);
    var l4 := [PopTry(0)] + rest;
    ReachesCons(s3, PushTry(0), l4, t);
    var l3 := [PushTry(0)] + l4;
    ReachesCons(s2, AcceptConn, l3, t);
    var l2 := [AcceptConn] + l3;
    ReachesCons(s1, EnterAccept, l2, t);
    var l1 := [EnterAccept] + l2;
    ReachesCons(s0, Spawn, l1, t);
    ls := [Spawn] + l1;
  }

  /** The promise fails when a worker is faster than the accept thread: one connection is pushed,
      popped, closed and its end counted before its start is. The counter stays at one for good. */
  lemma DriftExample() returns (ls: seq<Label>, t: State)
    ensures Reaches(Init(1, 1), ls, t)
    ensures t.acc == LoopHead && t.closed == [0] && InFlight(t) == 0 && t.active == 1
  {
    hide Reaches;
    t := JustPopped().(workers := [AtPop], closed := [0], finished := [0], zeroHits := 1,
                       acc := LoopHead, counted := [0], active := 1);
    ls := DriftEnd(t);
    ls := DriftPrefix(ls, t);
    assert Sum([AtPop], InHand()) == 0;
  }

  // ------------------------------------------------------------ leftovers at destroy

  /** A server with one worker and one queue slot, in which connection 0 is the first. */
  function One(items: seq<int>, down: bool, w: Worker, acc: Accept, abort: bool, next: nat,
               closed: seq<int>, pushed: seq<int>): State {
    State(Fifo(1, items, down), [w], 1, acc, abort, next, closed, pushed, [], |pushed|, pushed, [], 0)
  }

  lemma FirstSpawn(rest: seq<Label>, t: State)
    requires Reaches(One([], false, AtPop, LoopHead, false, 0, [], []), rest, t)
    ensures Reaches(Init(1, 1), [Spawn] + rest, t)
  {
    hide Reaches;
    assert Init(1, 1).workers == [Unborn];
    assert Next(Init(1, 1), Spawn) == One([], false, AtPop, LoopHead, false, 0, [], []);
    ReachesCons(Init(1, 1), Spawn, rest, t);
  }

  /** The opening: the worker sleeps, a connection is accepted, and the wait of the pop fails. */
  lemma WorkerBreaks(rest: seq<Label>, t: State) returns (ls: seq<Label>)
    requires Reaches(One([], false, Broken, Holding(0), false, 1, [], []), rest, t)
    ensures Reaches(Init(1, 1), ls, t)
  {
    hide Reaches;
    var s1 := One([], false, AtPop, LoopHead, false, 0, [], []);
    var s2 := One([], false, Asleep, LoopHead, false, 0, [], []);
    var s3 := One([], false, Asleep, InAccept, false, 0, [], []);
    var s4 := One([], false, Asleep, Holding(0), false, 1, [], []);
    var s5 := One([], false, Broken, Holding(0), false, 1, [], []);
    assert Next(s4, PopBreaks(0)) == s5;
    ReachesCons(s4, PopBreaks(0), rest, t);
    assert Next(s3, AcceptConn) == s4;
    ls := [PopBreaks(0)] + rest;
    ReachesCons(s3, AcceptConn, ls, t);
    assert Next(s2, EnterAccept) == s3;
    ls := [AcceptConn] + ls;
    ReachesCons(s2, EnterAccept, ls, t);
    assert Next(s1, PopTry(0)) == s2;
    ls := [EnterAccept] + ls;
    ReachesCons(s1, PopTry(0), ls, t);
    ls := [PopTry(0)] + ls;
    FirstSpawn(ls, t);
    ls := [Spawn] + ls;
  }

  /** The middle: the connection is queued although no worker is left, and the server is told to stop. */
  lemma PushedInVain(rest: seq<Label>, t: State) returns (ls: seq<Label>)
    requires Reaches(One([0], false, Broken, Leaving, true, 1, [], [0]), rest, t)
    ensures Reaches(One([], false, Broken, Holding(0), false, 1, [], []), ls, t)
  {
    hide Reaches;
    var s5 := One([], false, Broken, Holding(0), false, 1, [], []);
    var s6 := One([0], false, Broken, Counting(0), false, 1, [], [0]).(active := 0, counted := []);
    var s7 := One([0], false, Broken, LoopHead, false, 1, [], [0]);
    var s8 := One([0], false, Broken, LoopHead, true, 1, [], [0]);
    ReachesCons(s8, LeaveLoop, rest, t);
    ls := [LeaveLoop] + rest;
    ReachesCons(s7, SignalAbort, ls, t);
    ls := [SignalAbort] + ls;
    assert Next(s6, CountStart) == s7;
    ReachesCons(s6, CountStart, ls, t);
    ls := [CountStart] + ls;
    assert Next(s5, PushTry(0)) == s6;
    ReachesCons(s5, PushTry(0), ls, t);
    ls := [PushTry(0)] + ls;
  }

  /** The end: shutdown and join, with the connection still in the ring. */
  lemma NobodyDrains(rest: seq<Label>, t: State) returns (ls: seq<Label>)
    requires Reaches(One([0], true, Broken, Destroying, true, 1, [], [0]), rest, t)
    ensures Reaches(One([0], false, Broken, Leaving, true, 1, [], [0]), ls, t)
  {
    hide Reaches;
    var s9 := One([0], false, Broken, Leaving, true, 1, [], [0]);
    var s10 := One([0], true, Broken, Joining(0), true, 1, [], [0]);
    var s11 := One([0], true, Broken, Joining(1), true, 1, [], [0]);
    ReachesCons(s11, JoinedAll, rest, t);
    ls := [JoinedAll] + rest;
    ReachesCons(s10, JoinOne, ls, t);
    ls := [JoinOne] + ls;
    assert WakeAll([Broken]) == [Broken];
    assert Next(s9, ShutdownQueue) == s10;
    ReachesCons(s9, ShutdownQueue, ls, t);
    ls := [ShutdownQueue] + ls;
  }

  /** Leftovers do occur: the pop of the only worker fails, a connection is pushed all the same, nobody
      drains it, and destroy finds it in the ring and closes it. */
  lemma LeftoverExample() returns (ls: seq<Label>, t: State)
    ensures Reaches(Init(1, 1), ls, t) && t.acc == Destroying && t.queue.items == [0] && t.closed == []
    ensures Enabled(t, Destroy) && Next(t, Destroy).closed == [0] && Next(t, Destroy).acc == Returned
  {
    hide Reaches;
    t := One([0], true, Broken, Destroying, true, 1, [], [0]);
    StaysPut(t);
    ls := NobodyDrains([], t);
    ls := PushedInVain(ls, t);
    ls := WorkerBreaks(ls, t);
    assert [] + [0] == [0];
  }

  // --------------------------------------------------------- a wake-up lost by a failure

  /** A server with two workers and one queue slot. */
  function Two(items: seq<int>, a: Worker, b: Worker, acc: Accept, next: nat, pushed: seq<int>): State {
    State(Fifo(1, items, false), [a, b], 2, acc, false, next, [], pushed, [], 0, [], [], 0)
  }

  lemma BothAsleep(rest: seq<Label>, t: State) returns (ls: seq<Label>)
    requires Reaches(Two([], Asleep, Asleep, LoopHead, 0, []), rest, t)
    ensures Reaches(Init(1, 2), ls, t)
  {
    hide Reaches;
    var s0 := Init(1, 2);
    var s1 := s0.(workers := [AtPop, Unborn], started := 1);
    var s2 := Two([], AtPop, AtPop, LoopHead, 0, []);
    var s3 := Two([], Asleep, AtPop, LoopHead, 0, []);
    assert Next(s3, PopTry(1)) == Two([], Asleep, Asleep, LoopHead, 0, []);
    ReachesCons(s3, PopTry(1), rest, t);
    ls := [PopTry(1)] + rest;
    assert Next(s2, PopTry(0)) == s3;
    ReachesCons(s2, PopTry(0), ls, t);
    ls := [PopTry(0)] + ls;
    assert Next(s1, Spawn) == s2;
    ReachesCons(s1, Spawn, ls, t);
    ls := [Spawn] + ls;
    assert Next(s0, Spawn) == s1;
    ReachesCons(s0, Spawn, ls, t);
    ls := [Spawn] + ls;
  }

  lemma SignalTaken(t: State) returns (ls: seq<Label>)
    requires t == Two([0], Broken, Asleep, Counting(0), 1, [0])
    ensures Reaches(Two([], Asleep, Asleep, Holding(0), 1, []), ls, t)
  {
    hide Reaches, DoPop, DoCountEnd;
    var s6 := Two([], Asleep, Asleep, Holding(0), 1, []);
    var s7 := Two([0], Woken, Asleep, Counting(0), 1, [0]);
    StaysPut(t);
    assert Next(s7, PopBreaks(0)) == t;
    ReachesCons(s7, PopBreaks(0), [], t);
    ls := [PopBreaks(0)] + [];
    assert s6.workers[0] == Asleep;
    assert Next(s6, PushTry(0)) == s7;
    ReachesCons(s6, PushTry(0), ls, t);
    ls := [PushTry(0)] + ls;
  }

  lemma CountTwo(a: Worker, b: Worker, f: Worker -> nat)
    ensures Sum([a, b], f) == f(a) + f(b)
  {
    assert [a, b][1..] == [b];
    assert [b][1..] == [];
    assert Sum([b], f) == f(b) + Sum([], f);
  }

  /** Two workers sleep, a push signals the first, and the wait of that one fails: the connection stays
      queued, the other worker sleeps, and nobody has been woken. */
  lemma LostWakeupExample() returns (ls: seq<Label>, t: State)
    ensures Reaches(Init(1, 2), ls, t) && t.queue.items == [0] && t.workers == [Broken, Asleep]
    ensures Sum(t.workers, IsWoken()) == 0 && Sum(t.workers, IsBroken()) == 1
  {
    hide Reaches, DoPush, DoPop, DoCountEnd, Sum;
    var s4 := Two([], Asleep, Asleep, LoopHead, 0, []);
    var s5 := Two([], Asleep, Asleep, InAccept, 0, []);
    t := Two([0], Broken, Asleep, Counting(0), 1, [0]);
    ls := SignalTaken(t);
    ReachesCons(s5, AcceptConn, ls, t);
    ls := [AcceptConn] + ls;
    ReachesCons(s4, EnterAccept, ls, t);
    ls := [EnterAccept] + ls;
    ls := BothAsleep(ls, t);
    CountTwo(Broken, Asleep, IsWoken());
    CountTwo(Broken, Asleep, IsBroken());
  }
}
