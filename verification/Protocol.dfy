/** Accept thread, bounded queue, workers and shutdown as an interleaved transition system.
    Each lock-held region is one step; sleeping, waking and spurious wake-ups are steps of their own. */
module Protocol {
  import opened Queue

  // -------------------------------------------------------------------- state

  /** Where a worker stands in `worker_main`. */
  datatype Worker =
    | Unborn
    | AtPop              // about to lock the queue for a pop
    | Asleep             // waiting on not_empty
    | Woken              // signalled or spuriously awake, has not rechecked yet
    | Busy(c: int)       // inside client_handle, owns c
    | Finishing(c: int)  // c is closed, its end is not counted yet
    | Exited             // a pop reported shutdown
    | Broken             // a pop failed

  /** Where the accept thread stands in `server_run`. */
  datatype Accept =
    | Starting
    | LoopHead
    | InAccept
    | Holding(c: int)                // owns c, about to lock the queue for a push
    | PushAsleep(c: int)             // owns c, waiting on not_full
    | PushWoken(c: int)              // owns c, awake, has not rechecked yet
    | PushFailed(c: int, stop: bool) // owns c, push did not take it
    | Counting(c: int)               // c is queued, its start is not counted yet
    | Leaving
    | Joining(joined: nat)
    | Destroying
    | Returned

  datatype State = State(
    queue: Fifo,
    workers: seq<Worker>,
    started: nat,
    acc: Accept,
    abort: bool,
    next: nat,            // connections accepted so far are 0 .. next - 1
    closed: seq<int>,     // every close of a connection, in order
    pushed: seq<int>,     // every successful push, in order
    popped: seq<int>,     // every successful pop, in order
    active: nat,          // the active_connections counter
    counted: seq<int>,    // connections whose start was counted
    finished: seq<int>,   // connections whose end was counted
    zeroHits: nat         // ends that found the counter at zero
  )

  function Init(capacity: nat, n: nat): State {
    State(Fifo(capacity, [], false), seq(n, _ => Unborn), 0, Starting, false, 0, [], [], [], 0, [], [], 0)
  }

  // -------------------------------------------------------------------- steps

  datatype Label =
    | Spawn
    | SpawnFails
    | SignalAbort
    | EnterAccept
    | AcceptFails
    | AcceptConn
    | LeaveLoop
    | PushTry(wake: nat)   // if some worker sleeps, `wake` is the one the signal wakes
    | PushBreaks           // the lock, the clock or the wait of a push fails
    | PushWake             // timeout or spurious wake-up of the producer
    | CloseFailed
    | CountStart
    | PopTry(w: nat)
    | PopBreaks(w: nat)    // the lock or the wait of a pop fails, and the worker leaves
    | SpuriousWake(w: nat)
    | CloseConn(w: nat)
    | CountEnd(w: nat)
    | ShutdownQueue
    | JoinOne
    | JoinedAll
    | Destroy

  predicate SomeAsleep(ws: seq<Worker>) { exists i :: 0 <= i < |ws| && ws[i] == Asleep }

  predicate CanPop(w: Worker) { w == AtPop || w == Woken }

  /** The thread is gone: the worker loop was left, in either way. */
  predicate Left(w: Worker) { w == Exited || w == Broken }

  predicate PushReady(a: Accept) { a.Holding? || a.PushWoken? }

  predicate Enabled(s: State, l: Label) {
    match l
    case Spawn => s.acc == Starting && s.started < |s.workers|
    case SpawnFails => s.acc == Starting && s.started < |s.workers|
    case SignalAbort => !s.abort
    case EnterAccept => s.acc == LoopHead && !s.abort
    case AcceptFails => s.acc == InAccept
    case AcceptConn => s.acc == InAccept
    case LeaveLoop => s.acc == LoopHead && s.abort
    case PushTry(wake) =>
      && PushReady(s.acc)
      && (SomeAsleep(s.workers) ==> wake < |s.workers| && s.workers[wake] == Asleep)
    case PushBreaks => s.acc.PushAsleep? || PushReady(s.acc)
    case PushWake => s.acc.PushAsleep?
    case CloseFailed => s.acc.PushFailed?
    case CountStart => s.acc.Counting?
    case PopTry(w) => w < |s.workers| && CanPop(s.workers[w])
    case PopBreaks(w) => w < |s.workers| && (CanPop(s.workers[w]) || s.workers[w] == Asleep)
    case SpuriousWake(w) => w < |s.workers| && s.workers[w] == Asleep
    case CloseConn(w) => w < |s.workers| && s.workers[w].Busy?
    case CountEnd(w) => w < |s.workers| && s.workers[w].Finishing?
    case ShutdownQueue => s.acc == Leaving
    case JoinOne => s.acc.Joining? && s.acc.joined < s.started <= |s.workers| && Left(s.workers[s.acc.joined])
    case JoinedAll => s.acc.Joining? && s.acc.joined >= s.started
    case Destroy => s.acc == Destroying
  }

  /** `pthread_cond_signal(&not_empty)`: one sleeper wakes, if there is one. Waking more than one is
      this step followed by spurious wake-ups. */
  function Signal(ws: seq<Worker>, wake: nat): seq<Worker> {
    if SomeAsleep(ws) && wake < |ws| then ws[wake := Woken] else ws
  }

  /** `pthread_cond_broadcast(&not_empty)`. */
  function WakeAll(ws: seq<Worker>): (r: seq<Worker>)
    ensures |r| == |ws|
    ensures forall i :: 0 <= i < |ws| ==> r[i] == if ws[i] == Asleep then Woken else ws[i]
  {
    seq(|ws|, i requires 0 <= i < |ws| => if ws[i] == Asleep then Woken else ws[i])
  }

  /** The lock-held pass of a push by the accept thread. */
  function DoPush(s: State, wake: nat): State
    requires PushReady(s.acc)
  {
    var c := s.acc.c;
    var (q, o) := Push(s.queue, c);
    match o
    case Done =>
      s.(queue := q, workers := Signal(s.workers, wake), pushed := s.pushed + [c], acc := Counting(c))
    case MustWait => s.(acc := if s.abort then PushFailed(c, true) else PushAsleep(c))
    case _ => s.(acc := PushFailed(c, true))
  }

  /** The lock-held pass of a pop by worker `w`. */
  function DoPop(s: State, w: nat): State
    requires w < |s.workers|
  {
    var (q, o) := Pop(s.queue);
    match o
    case Got(c) =>
      s.(queue := q,
         workers := s.workers[w := Busy(c)],
         popped := s.popped + [c],
         acc := if s.acc.PushAsleep? then PushWoken(s.acc.c) else s.acc)
    case MustWait => s.(workers := s.workers[w := Asleep])
    case _ => s.(workers := s.workers[w := Exited])
  }

  function DoCountEnd(s: State, w: nat): State
    requires w < |s.workers| && s.workers[w].Finishing?
  {
    s.(workers := s.workers[w := AtPop],
       finished := s.finished + [s.workers[w].c],
       active := if s.active > 0 then s.active - 1 else 0,
       zeroHits := if s.active > 0 then s.zeroHits else s.zeroHits + 1)
  }

  function Next(s: State, l: Label): State
    requires Enabled(s, l)
  {
    match l
    case Spawn =>
      s.(workers := s.workers[s.started := AtPop],
         started := s.started + 1,
         acc := if s.started + 1 == |s.workers| then LoopHead else Starting)
    case SpawnFails => s.(acc := Leaving)
    case SignalAbort => s.(abort := true)
    case EnterAccept => s.(acc := InAccept)
    case AcceptFails => s.(acc := LoopHead)
    case AcceptConn => s.(acc := Holding(s.next), next := s.next + 1)
    case LeaveLoop => s.(acc := Leaving)
    case PushTry(wake) => DoPush(s, wake)
    case PushBreaks => s.(acc := PushFailed(s.acc.c, false))
    case PushWake => s.(acc := PushWoken(s.acc.c))
    case CloseFailed =>
      s.(closed := s.closed + [s.acc.c], acc := if s.acc.stop || s.abort then Leaving else LoopHead)
    case CountStart => s.(counted := s.counted + [s.acc.c], active := s.active + 1, acc := LoopHead)
    case PopTry(w) => DoPop(s, w)
    case PopBreaks(w) => s.(workers := s.workers[w := Broken])
    case SpuriousWake(w) => s.(workers := s.workers[w := Woken])
    case CloseConn(w) =>
      s.(workers := s.workers[w := Finishing(s.workers[w].c)], closed := s.closed + [s.workers[w].c])
    case CountEnd(w) => DoCountEnd(s, w)
    case ShutdownQueue => s.(queue := Close(s.queue), workers := WakeAll(s.workers), acc := Joining(0))
    case JoinOne => s.(acc := Joining(s.acc.joined + 1))
    case JoinedAll => s.(acc := Destroying)
    case Destroy => s.(closed := s.closed + s.queue.items, queue := s.queue.(items := []), acc := Returned)
  }

  /** The states of a run, by its last one. */
  ghost predicate Reaches(s: State, ls: seq<Label>, t: State)
    decreases |ls|
  {
    if ls == [] then s == t else Enabled(s, ls[0]) && Reaches(Next(s, ls[0]), ls[1..], t)
  }

  // ------------------------------------------------------- counting over workers

  function Sum(ws: seq<Worker>, f: Worker -> nat): nat {
    if ws == [] then 0 else f(ws[0]) + Sum(ws[1..], f)
  }

  lemma {:induction false} SumUpdate(ws: seq<Worker>, i: nat, w: Worker, f: Worker -> nat)
    requires i < |ws|
    ensures Sum(ws[i := w], f) + f(ws[i]) == Sum(ws, f) + f(w)
    ensures f(ws[i]) <= Sum(ws, f)
    decreases |ws|
  {
    if i == 0 {
      assert ws[0 := w][1..] == ws[1..];
    } else {
      SumUpdate(ws[1..], i - 1, w, f);
      assert ws[i := w][1..] == ws[1..][i - 1 := w];
    }
  }

  lemma {:induction false} SumWakeAll(ws: seq<Worker>, f: Worker -> nat)
    requires f(Asleep) == f(Woken)
    ensures Sum(WakeAll(ws), f) == Sum(ws, f)
  {
    if ws != [] {
      SumWakeAll(ws[1..], f);
      assert WakeAll(ws)[1..] == WakeAll(ws[1..]);
    }
  }

  lemma {:induction false} SumZero(ws: seq<Worker>, f: Worker -> nat)
    requires forall i :: 0 <= i < |ws| ==> f(ws[i]) == 0
    ensures Sum(ws, f) == 0
  {
    if ws != [] { SumZero(ws[1..], f); }
  }

  function OwnsConn(c: int): Worker -> nat { (w: Worker) => if w.Busy? && w.c == c then 1 else 0 }
  function EndsConn(c: int): Worker -> nat { (w: Worker) => if w.Finishing? && w.c == c then 1 else 0 }
  function IsWoken(): Worker -> nat { (w: Worker) => if w == Woken then 1 else 0 }
  function IsBroken(): Worker -> nat { (w: Worker) => if w == Broken then 1 else 0 }
}
