/** The bounded connection queue: a ring array that refines a FIFO sequence. */
module Queue {

  /** The abstract queue: at most `capacity` descriptors in arrival order. */
  datatype Fifo = Fifo(capacity: nat, items: seq<int>, down: bool)

  datatype Outcome = Done | Got(fd: int) | MustWait | ShutDown | Refused

  /** One lock-held pass of `connection_queue_push`, waits excluded. */
  function Push(q: Fifo, fd: int): (Fifo, Outcome) {
    if fd < 0 then (q, Refused)
    else if |q.items| >= q.capacity && !q.down then (q, MustWait)
    else if q.down then (q, ShutDown)
    else (q.(items := q.items + [fd]), Done)
  }

  /** One lock-held pass of `connection_queue_pop`, waits excluded. */
  function Pop(q: Fifo): (Fifo, Outcome) {
    if q.items == [] then (q, if q.down then ShutDown else MustWait)
    else (q.(items := q.items[1..]), Got(q.items[0]))
  }

  function Close(q: Fifo): Fifo { q.(down := true) }

  datatype Op = PushOp(fd: int) | PopOp | ShutdownOp

  function Apply(q: Fifo, op: Op): (Fifo, Outcome) {
    match op
    case PushOp(fd) => Push(q, fd)
    case PopOp => Pop(q)
    case ShutdownOp => (Close(q), Done)
  }

  /** Final queue and every answer of a sequence of operations. */
  function Run(q: Fifo, ops: seq<Op>): (r: (Fifo, seq<Outcome>))
    ensures |r.1| == |ops| && r.0.capacity == q.capacity
    decreases |ops|
  {
    if ops == [] then (q, [])
    else
      var (q1, out) := Apply(q, ops[0]);
      var (q2, outs) := Run(q1, ops[1..]);
      (q2, [out] + outs)
  }

  lemma {:induction false} RunAppend(q: Fifo, ops: seq<Op>, op: Op)
    ensures Run(q, ops + [op]).0 == Apply(Run(q, ops).0, op).0
    ensures Run(q, ops + [op]).1 == Run(q, ops).1 + [Apply(Run(q, ops).0, op).1]
    decreases |ops|
  {
    if ops == [] {
      assert Run(Apply(q, op).0, []) == (Apply(q, op).0, []);
    } else {
      RunAppend(Apply(q, ops[0]).0, ops[1..], op);
      assert (ops + [op])[1..] == ops[1..] + [op];
    }
  }

  function Accepted(ops: seq<Op>, outs: seq<Outcome>): seq<int>
    requires |ops| == |outs|
  {
    if ops == [] then []
    else
      (if ops[0].PushOp? && outs[0] == Done then [ops[0].fd] else []) + Accepted(ops[1..], outs[1..])
  }

  function Delivered(outs: seq<Outcome>): seq<int> {
    if outs == [] then [] else (if outs[0].Got? then [outs[0].fd] else []) + Delivered(outs[1..])
  }

  /** One operation keeps "delivered, then queued" equal to "accepted in order". */
  lemma OneStep(q: Fifo, op: Op, later: seq<int>, more: seq<int>)
    requires later == Apply(q, op).0.items + more
    ensures (if Apply(q, op).1.Got? then [Apply(q, op).1.fd] else []) + later ==
            q.items + ((if op.PushOp? && Apply(q, op).1 == Done then [op.fd] else []) + more)
    ensures |q.items| <= q.capacity ==> |Apply(q, op).0.items| <= q.capacity
  {}

  /** First in, first out, nothing lost and nothing invented: over every sequence of operations the
      descriptors delivered, followed by those still queued, are those accepted in order. */
  lemma {:induction false} FirstInFirstOut(q: Fifo, ops: seq<Op>)
    ensures Delivered(Run(q, ops).1) + Run(q, ops).0.items == q.items + Accepted(ops, Run(q, ops).1)
    ensures |q.items| <= q.capacity ==> |Run(q, ops).0.items| <= q.capacity
    decreases |ops|
  {
    if ops != [] {
      var (q1, out) := Apply(q, ops[0]);
      var (q2, outs) := Run(q1, ops[1..]);
      FirstInFirstOut(q1, ops[1..]);
      assert Run(q, ops) == (q2, [out] + outs);
      assert ([out] + outs)[1..] == outs;
      OneStep(q, ops[0], Delivered(outs) + q2.items, Accepted(ops[1..], outs));
    }
  }

  // --------------------------------------------------------------- ring array

  /** `x % n`, for an index that has gone round at most once. */
  function Wrap(x: nat, n: nat): (w: nat)
    requires 0 < n && x < 2 * n
    ensures w < n && w == x % n
  {
    if x < n then x else x - n
  }

  /** The elements of a ring, from `head` on, through wraparound. */
  ghost function RingSeq(buf: seq<int>, head: nat, count: nat): (s: seq<int>)
    requires head < |buf| && count <= |buf|
    ensures |s| == count && forall i :: 0 <= i < count ==> s[i] == buf[Wrap(head + i, |buf|)]
  {
    seq(count, i requires 0 <= i < count => buf[Wrap(head + i, |buf|)])
  }

  lemma RingPush(buf: seq<int>, head: nat, count: nat, x: int)
    requires head < |buf| && count < |buf|
    ensures RingSeq(buf[Wrap(head + count, |buf|) := x], head, count + 1) == RingSeq(buf, head, count) + [x]
    ensures Wrap(Wrap(head + count, |buf|) + 1, |buf|) == Wrap(head + (count + 1), |buf|)
  {}

  lemma RingPop(buf: seq<int>, head: nat, count: nat)
    requires head < |buf| && 0 < count <= |buf|
    ensures RingSeq(buf, head, count) == [buf[head]] + RingSeq(buf, Wrap(head + 1, |buf|), count - 1)
    ensures Wrap(Wrap(head + 1, |buf|) + (count - 1), |buf|) == Wrap(head + count, |buf|)
  {}

  lemma RingSet(buf: seq<int>, head: nat, count: nat, i: nat, x: int)
    requires head < |buf| && i < count <= |buf|
    ensures RingSeq(buf[Wrap(head + i, |buf|) := x], head, count) == RingSeq(buf, head, count)[i := x]
  {}

  class ConnectionQueue {
    var items: array<int>
    var head: nat
    var tail: nat
    var count: nat
    var down: bool

    ghost predicate Valid()
      reads this, items
    {
      && head < items.Length && count <= items.Length
      && tail == Wrap(head + count, items.Length)
      && forall i :: 0 <= i < count ==> Contents()[i] >= 0
    }

    ghost function Contents(): (s: seq<int>)
      requires head < items.Length && count <= items.Length
      reads this, items
      ensures |s| == count
    {
      RingSeq(items[..], head, count)
    }

    /** The abstract queue this ring stands for. */
    ghost function Abs(): Fifo
      requires Valid()
      reads this, items
    {
      Fifo(items.Length, Contents(), down)
    }

    constructor (capacity: nat)
      requires capacity > 0
      ensures Valid() && Abs() == Fifo(capacity, [], false) && fresh(items)
    {
      items, head, tail, count, down := new int[capacity], 0, 0, 0, false;
    }

    /** `connection_queue_push` while it holds the lock. */
    method PushPass(fd: int) returns (o: Outcome)
      requires Valid()
      modifies `tail, `count, items
      ensures Valid() && (Abs(), o) == Push(old(Abs()), fd)
    {
      if fd < 0 {
        return Refused;
      }
      if count >= items.Length && !down {
        return MustWait;
      }
      if down {
        return ShutDown;
      }
      RingPush(items[..], head, count, fd);
      items[tail] := fd;
      tail := (tail + 1) % items.Length;
      count := count + 1;
      assert items[..] == old(items[..])[old(tail) := fd];
      assert Contents() == old(Contents()) + [fd];
      return Done;
    }

    /** `connection_queue_pop` while it holds the lock. */
    method PopPass() returns (o: Outcome)
      requires Valid()
      modifies `head, `count
      ensures Valid() && (Abs(), o) == Pop(old(Abs()))
    {
      if count == 0 {
        return if down then ShutDown else MustWait;
      }
      RingPop(items[..], head, count);
      var fd := items[head];
      head := (head + 1) % items.Length;
      count := count - 1;
      assert items[..] == old(items[..]);
      assert old(Contents()) == [fd] + Contents();
      assert forall i :: 0 <= i < count ==> Contents()[i] == old(Contents())[i + 1];
      return Got(fd);
    }

    /** `connection_queue_shutdown`. */
    method Shutdown()
      requires Valid()
      modifies `down
      ensures Valid() && Abs() == Close(old(Abs()))
    {
      down := true;
      assert items[..] == old(items[..]);
      assert Contents() == old(Contents());
    }

    /** The leftover loop of `connection_queue_destroy`: every queued descriptor, once, in order, and its
        slot is marked empty. */
    method CloseLeftovers() returns (closed: seq<int>)
      requires Valid()
      modifies `count, items
      ensures closed == old(Contents())
      ensures count == 0
      ensures forall j :: 0 <= j < old(count) ==> RingSeq(items[..], head, old(count))[j] == -1
    {
      hide RingSeq;
      closed := [];
      ghost var all := Contents();
      var i := 0;
      while i < count
        invariant 0 <= i <= count == |all|
        invariant closed == all[..i]
        invariant forall j :: 0 <= j < count ==> RingSeq(items[..], head, count)[j] == if j < i then -1 else all[j]
        modifies items
      {
        var idx := (head + i) % items.Length;
        assert idx == Wrap(head + i, items.Length);
        var fd := items[idx];
        assert fd == RingSeq(items[..], head, count)[i] == all[i] >= 0;
        if fd >= 0 {
          closed := closed + [fd];
          RingSet(items[..], head, count, i, -1);
          ghost var before := items[..];
          items[idx] := -1;
          assert items[..] == before[idx := -1];
        }
        i := i + 1;
      }
      count := 0;
    }

    method Step(op: Op) returns (o: Outcome)
      requires Valid()
      modifies this, items
      ensures Valid() && items == old(items)
      ensures (Abs(), o) == Apply(old(Abs()), op)
    {
      match op
      case PushOp(fd) => o := PushPass(fd);
      case PopOp => o := PopPass();
      case ShutdownOp => Shutdown(); o := Done;
    }

    /** Any sequence of operations on the ring is the same sequence on the abstract queue. */
    method Perform(ops: seq<Op>) returns (outs: seq<Outcome>)
      requires Valid()
      modifies this, items
      ensures Valid() && items == old(items)
      ensures (Abs(), outs) == Run(old(Abs()), ops)
    {
      outs := [];
      ghost var start := Abs();
      for i := 0 to |ops|
        invariant Valid() && items == old(items)
        invariant (Abs(), outs) == Run(start, ops[..i])
      {
        RunAppend(start, ops[..i], ops[i]);
        assert ops[..i + 1] == ops[..i] + [ops[i]];
        var o := Step(ops[i]);
        outs := outs + [o];
      }
      assert ops[..|ops|] == ops;
    }
  }
}
