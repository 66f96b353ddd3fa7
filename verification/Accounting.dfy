/** The active_connections counter: start is counted after the push, end by the worker. */
module Accounting {
  import opened Protocol
  import opened ProtocolProofs

  /** The counter is starts minus ends, plus the ends that found it at zero. */
  ghost predicate Books(s: State) {
    s.active == |s.counted| - |s.finished| + s.zeroHits
  }

  lemma BooksStep(s: State, l: Label)
    requires Books(s) && Enabled(s, l)
    ensures Books(Next(s, l))
    ensures Next(s, l).zeroHits == s.zeroHits + (if l.CountEnd? && s.active == 0 then 1 else 0)
  {}

  /** In this run every counted end finds more counted starts than counted ends. */
  ghost predicate Balanced(s: State, ls: seq<Label>)
    decreases |ls|
  {
    ls == [] ||
    (Enabled(s, ls[0]) &&
     (ls[0].CountEnd? ==> |s.finished| < |s.counted|) &&
     Balanced(Next(s, ls[0]), ls[1..]))
  }

  /** The counter never drifts exactly in the runs where each end finds an uncancelled start. */
  lemma {:induction false} DriftIff(s: State, ls: seq<Label>, t: State)
    requires Books(s) && Reaches(s, ls, t)
    ensures Books(t) && t.zeroHits >= s.zeroHits
    ensures s.zeroHits == 0 ==> (t.zeroHits == 0 <==> Balanced(s, ls))
    decreases |ls|
  {
    hide Next, Enabled;
    if ls != [] {
      BooksStep(s, ls[0]);
      DriftIff(Next(s, ls[0]), ls[1..], t);
    }
  }

  /** Active-connection accounting: in every run the counter exceeds starts minus ends by the ends
      that hit the zero guard, and it equals starts minus ends exactly for balanced runs. */
  lemma ActiveAccounting(capacity: nat, n: nat, ls: seq<Label>, t: State)
    requires Reaches(Init(capacity, n), ls, t)
    ensures t.active == |t.counted| - |t.finished| + t.zeroHits
    ensures t.active == |t.counted| - |t.finished| <==> Balanced(Init(capacity, n), ls)
  {
    DriftIff(Init(capacity, n), ls, t);
  }

  // --------------------------------------- start before end implies no drift

  /** In this run the start of each connection is counted before its end. */
  ghost predicate StartsFirst(s: State, ls: seq<Label>)
    decreases |ls|
  {
    ls == [] ||
    (Enabled(s, ls[0]) &&
     (ls[0].CountEnd? ==> s.workers[ls[0].w].c in s.counted) &&
     StartsFirst(Next(s, ls[0]), ls[1..]))
  }

  /** A connection's end is counted, or about to be, only after it was closed. */
  function EndTokens(s: State, c: int): nat { Occ(s.finished, c) + Sum(s.workers, EndsConn(c)) }

  lemma EndTokensPush(s: State, wake: nat, c: int)
    requires Enabled(s, PushTry(wake))
    ensures EndTokens(DoPush(s, wake), c) == EndTokens(s, c) && DoPush(s, wake).closed == s.closed
  {
    hide Sum, Occ;
    if SomeAsleep(s.workers) { SumUpdate(s.workers, wake, Woken, EndsConn(c)); }
  }

  lemma EndTokensPop(s: State, w: nat, c: int)
    requires Enabled(s, PopTry(w))
    ensures EndTokens(DoPop(s, w), c) == EndTokens(s, c) && DoPop(s, w).closed == s.closed
  {
    hide Sum, Occ;
    SumUpdate(s.workers, w, DoPop(s, w).workers[w], EndsConn(c));
  }

  lemma EndTokensEnd(s: State, l: Label, w: nat, c: int)
    requires Enabled(s, l) && (l == CloseConn(w) || l == CountEnd(w))
    requires EndTokens(s, c) <= Occ(s.closed, c)
    ensures EndTokens(Next(s, l), c) <= Occ(Next(s, l).closed, c)
  {
    hide Sum, Occ, DoPush, DoPop;
    var d := s.workers[w].c;
    SumUpdate(s.workers, w, Next(s, l).workers[w], EndsConn(c));
    OccSnoc(s.closed, d, c);
    OccSnoc(s.finished, d, c);
  }

  lemma EndTokensStep(s: State, l: Label, c: int)
    requires SlotsMatch(s) && Enabled(s, l)
    requires EndTokens(s, c) <= Occ(s.closed, c)
    ensures EndTokens(Next(s, l), c) <= Occ(Next(s, l).closed, c)
  {
    hide Sum, Occ;
    var f := EndsConn(c);
    match l
    case PushTry(wake) => EndTokensPush(s, wake, c);
    case PopTry(w) => EndTokensPop(s, w, c);
    case PopBreaks(w) => SumUpdate(s.workers, w, Broken, f);
    case Spawn => SumUpdate(s.workers, s.started, AtPop, f);
    case SpuriousWake(w) => SumUpdate(s.workers, w, Woken, f);
    case CloseConn(w) => EndTokensEnd(s, l, w, c);
    case CountEnd(w) => EndTokensEnd(s, l, w, c);
    case ShutdownQueue => SumWakeAll(s.workers, f);
    case CloseFailed => OccSnoc(s.closed, s.acc.c, c);
    case Destroy => OccConcat(s.closed, s.queue.items, c);
    case _ =>
  }

  /** A log that another one dominates everywhere and exceeds somewhere is shorter. */
  lemma DominatedIsShorter(xs: seq<int>, ys: seq<int>, c: int)
    requires forall x :: Occ(xs, x) <= Occ(ys, x)
    requires Occ(xs, c) < Occ(ys, c)
    ensures |xs| < |ys|
  {
    var a, b := multiset(xs), multiset(ys);
    forall x ensures a[x] <= b[x] {
      assert Occ(xs, x) <= Occ(ys, x);
    }
    assert b == a + (b - a);
    assert (b - a)[c] > 0;
    assert |b| == |a| + |b - a|;
  }

  ghost predicate Ordered(s: State) {
    && (forall c :: EndTokens(s, c) <= Occ(s.closed, c))
    && (forall c :: Occ(s.finished, c) <= Occ(s.counted, c))
  }

  lemma OccIn(xs: seq<int>, c: int)
    ensures c in xs <==> Occ(xs, c) > 0
  {}

  /** The end that is about to be counted has a start of its own that no counted end has used. */
  lemma EndHasStart(s: State, w: nat)
    requires Inv(s) && Ordered(s) && Enabled(s, CountEnd(w)) && s.workers[w].c in s.counted
    ensures |s.finished| < |s.counted| && Occ(s.finished, s.workers[w].c) == 0
  {
    hide Occ, Sum;
    var c := s.workers[w].c;
    assert Places(s, c) <= 1;
    SumUpdate(s.workers, w, AtPop, EndsConn(c));
    assert EndTokens(s, c) <= Occ(s.closed, c);
    OccIn(s.counted, c);
    DominatedIsShorter(s.finished, s.counted, c);
  }

  lemma LogsStep(s: State, l: Label, c: int)
    requires Enabled(s, l)
    ensures Occ(Next(s, l).counted, c) == Occ(s.counted, c) + (if l.CountStart? && s.acc.c == c then 1 else 0)
    ensures Occ(Next(s, l).finished, c) == Occ(s.finished, c) + (if l.CountEnd? && s.workers[l.w].c == c then 1 else 0)
  {
    hide Occ;
    if l.CountStart? { OccSnoc(s.counted, s.acc.c, c); }
    if l.CountEnd? { OccSnoc(s.finished, s.workers[l.w].c, c); }
  }

  lemma OrderedStep(s: State, l: Label)
    requires Inv(s) && Ordered(s) && Enabled(s, l)
    requires l.CountEnd? ==> s.workers[l.w].c in s.counted
    ensures Ordered(Next(s, l))
    ensures l.CountEnd? ==> |s.finished| < |s.counted|
  {
    hide Occ, Sum, EndTokens, Places;
    var t := Next(s, l);
    forall c ensures EndTokens(t, c) <= Occ(t.closed, c) {
      EndTokensStep(s, l, c);
    }
    if l.CountEnd? { EndHasStart(s, l.w); }
    forall c ensures Occ(t.finished, c) <= Occ(t.counted, c) {
      LogsStep(s, l, c);
      if l.CountEnd? { OccIn(s.counted, c); }
    }
  }

  lemma {:induction false} OrderedIsBalanced(s: State, ls: seq<Label>, t: State)
    requires Inv(s) && Ordered(s) && StartsFirst(s, ls) && Reaches(s, ls, t)
    ensures Balanced(s, ls)
    decreases |ls|
  {
    hide Inv, Ordered, Enabled, Next;
    if ls != [] {
      OrderedStep(s, ls[0]);
      InvStep(s, ls[0]);
      OrderedIsBalanced(Next(s, ls[0]), ls[1..], t);
    }
  }

  /** If each connection's start is counted before its end, the counter is exact throughout. */
  lemma NoDriftWhenOrdered(capacity: nat, n: nat, ls: seq<Label>, t: State)
    requires n > 0 && Reaches(Init(capacity, n), ls, t) && StartsFirst(Init(capacity, n), ls)
    ensures t.zeroHits == 0 && t.active == |t.counted| - |t.finished|
  {
    var s := Init(capacity, n);
    InvInit(capacity, n);
    forall c ensures EndTokens(s, c) == 0 {
      SumZero(s.workers, EndsConn(c));
    }
    OrderedIsBalanced(s, ls, t);
    DriftIff(s, ls, t);
  }

  // ------------------------------------------------ what the counter stands for

  function InHand(): Worker -> nat { (w: Worker) => if w.Busy? || w.Finishing? then 1 else 0 }

  /** Connections the documentation calls active: queued, or with a worker until its end is counted. */
  function InFlight(s: State): nat { |s.queue.items| + Sum(s.workers, InHand()) }

  ghost predicate Tally(s: State) {
    && |s.pushed| == |s.counted| + (if s.acc.Counting? then 1 else 0)
    && |s.popped| == |s.finished| + Sum(s.workers, InHand())
  }

  lemma TallyPop(s: State, w: nat)
    requires Tally(s) && Enabled(s, PopTry(w))
    ensures Tally(DoPop(s, w))
  {
    hide Sum;
    SumUpdate(s.workers, w, DoPop(s, w).workers[w], InHand());
  }

  lemma TallyWorker(s: State, l: Label, w: nat)
    requires SlotsMatch(s) && Tally(s) && Enabled(s, l) && StepOf(s, l, w)
    ensures Tally(Next(s, l))
  {
    hide Sum, DoPush, DoPop;
    SumUpdate(s.workers, w, Next(s, l).workers[w], InHand());
  }

  lemma TallyStep(s: State, l: Label)
    requires Core(s) && Tally(s) && Enabled(s, l)
    ensures Tally(Next(s, l))
  {
    hide Sum, Drained, DoPop, DoCountEnd;
    match l
    case PushTry(wake) =>
      if SomeAsleep(s.workers) { SumUpdate(s.workers, wake, Woken, InHand()); }
    case PopTry(w) => TallyPop(s, w);
    case PopBreaks(w) => TallyWorker(s, l, w);
    case CloseConn(w) => TallyWorker(s, l, w);
    case CountEnd(w) => TallyWorker(s, l, w);
    case SpuriousWake(w) => TallyWorker(s, l, w);
    case Spawn => TallyWorker(s, l, s.started);
    case ShutdownQueue => SumWakeAll(s.workers, InHand());
    case _ =>
  }

  lemma {:induction false} TallyRun(s: State, ls: seq<Label>, t: State)
    requires Inv(s) && Tally(s) && Reaches(s, ls, t)
    ensures Inv(t) && Tally(t)
    decreases |ls|
  {
    hide Tally, Enabled, Next, Places;
    if ls != [] {
      TallyStep(s, ls[0]);
      InvStep(s, ls[0]);
      TallyRun(Next(s, ls[0]), ls[1..], t);
    }
  }

  /** Connections that destroy found in the ring and closed; their ends are never counted. */
  function Leftovers(s: State): int { |s.pushed| - |s.popped| - |s.queue.items| }

  /** The documented meaning of the counter, and exactly when it holds: between counting steps it is
      the number of connections in flight if and only if the run was balanced and destroy closed no
      connection. */
  lemma MeaningOfActive(capacity: nat, n: nat, ls: seq<Label>, t: State)
    requires n > 0 && Reaches(Init(capacity, n), ls, t)
    ensures 0 <= Leftovers(t) && (!t.acc.Returned? ==> Leftovers(t) == 0)
    ensures t.active == InFlight(t) + Leftovers(t) - (if t.acc.Counting? then 1 else 0) + t.zeroHits
    ensures !t.acc.Counting? ==>
              (t.active == InFlight(t) <==> Balanced(Init(capacity, n), ls) && Leftovers(t) == 0)
  {
    hide Sum, Places;
    var s := Init(capacity, n);
    InvInit(capacity, n);
    SumZero(s.workers, InHand());
    TallyRun(s, ls, t);
    DriftIff(s, ls, t);
    assert !t.acc.Returned? ==> |t.popped + t.queue.items| == |t.pushed|;
  }
}
