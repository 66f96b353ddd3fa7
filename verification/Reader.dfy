/** The connection reader: a growing buffer, a recv loop and two timeouts. */
module Reader {
  import opened Bytes
  import opened Lines
  import opened Framing
  import opened Parser
  import opened Stream
  import opened Sockets

  const INITIAL_CAPACITY: nat := 4096

  datatype ReadResult =
    | Message(data: bytes)
    | ClientClosed
    | Timeout
    | IoError
    | Rejected(why: ParseError)

  // ---------------------------------------------------------------- deadlines

  /** A wait this long or longer is cut to 1000 s. */
  const MAX_WAIT: nat := 1001 * NANOS_PER_SEC

  /** `timespec_before`. */
  predicate Before(a: Timespec, b: Timespec) {
    if a.sec != b.sec then a.sec < b.sec else a.nsec < b.nsec
  }

  /** `remaining_timeout_ms`, after the clock has been read. */
  function RemainingMs(deadline: Timespec, now: Timespec): int {
    if !Before(now, deadline) then 0
    else
      var borrow := deadline.nsec < now.nsec;
      var sec := deadline.sec - now.sec - (if borrow then 1 else 0);
      var nsec := deadline.nsec - now.nsec + (if borrow then NANOS_PER_SEC else 0);
      if sec > 1000 then 1_000_000
      else
        var ms := sec * 1000 + nsec / NANOS_PER_MS;
        if ms <= 0 then 0 else if ms > 2147483647 then 2147483647 else ms
  }

  /** For normalized times the result is the floor of the true distance, clamped at 1000 s. */
  lemma RemainingIsFloor(deadline: Timespec, now: Timespec)
    requires Normalized(deadline) && Normalized(now)
    ensures Nanos(now) < Nanos(deadline) <==> Before(now, deadline)
    ensures Nanos(deadline) <= Nanos(now) ==> RemainingMs(deadline, now) == 0
    ensures Nanos(now) < Nanos(deadline) < Nanos(now) + MAX_WAIT ==>
              RemainingMs(deadline, now) == (Nanos(deadline) - Nanos(now)) / NANOS_PER_MS
    ensures Nanos(now) + MAX_WAIT <= Nanos(deadline) ==> RemainingMs(deadline, now) == 1_000_000
  {}

  lemma RemainingFits(deadline: Timespec, now: Timespec)
    requires Normalized(deadline) && Normalized(now)
    ensures 0 <= RemainingMs(deadline, now)
    ensures RemainingMs(deadline, now) != 0 ==>
              Nanos(now) + RemainingMs(deadline, now) * NANOS_PER_MS <= Nanos(deadline)
    ensures Nanos(deadline) < Nanos(now) + MAX_WAIT ==>
              Nanos(deadline) < Nanos(now) + (RemainingMs(deadline, now) + 1) * NANOS_PER_MS
  {
    RemainingIsFloor(deadline, now);
  }

  /** The last millisecond in front of the deadline has begun. */
  predicate TooLate(deadline: Option<Timespec>, now: nat) {
    deadline.Some? && Nanos(deadline.value) < now + NANOS_PER_MS
  }

  datatype Wait = Ready | Expired | Broken

  /** `wait_readable`: an interrupted poll starts over with the full timeout. */
  method WaitReadable(sock: Socket, timeoutMs: nat) returns (w: Wait)
    modifies sock`now, sock`faults, sock`expiries, sock`readFaults, sock`budget
    ensures Later(sock)
    ensures sock.expiries == old(sock.expiries) + (if w.Expired? then 1 else 0)
    ensures sock.readFaults == old(sock.readFaults) + (if w.Broken? then 1 else 0)
    ensures sock.faults == old(sock.faults) ==> sock.now <= old(sock.now) + timeoutMs * NANOS_PER_MS
    ensures sock.faults == old(sock.faults) && w.Expired? ==> sock.now == old(sock.now) + timeoutMs * NANOS_PER_MS
  {
    while true
      invariant Later(sock) && sock.expiries == old(sock.expiries) && sock.readFaults == old(sock.readFaults)
      invariant sock.faults == old(sock.faults) ==> sock.now == old(sock.now)
      decreases sock.budget
    {
      var rc := sock.Poll(timeoutMs);
      match rc
      case PollInterrupted =>
      case PollFailed => return Broken;
      case TimedOut => return Expired;
      case Readable => return Wait.Ready;
    }
  }

  /** The wait of one loop turn: the keep-alive timeout while nothing is buffered, what is left
      until the request deadline afterwards. */
  method AwaitInput(sock: Socket, deadline: Option<Timespec>, keepAliveSec: nat) returns (w: Wait)
    requires deadline.Some? ==> Normalized(deadline.value)
    modifies sock`now, sock`faults, sock`clockFaults, sock`expiries, sock`readFaults, sock`budget
    ensures Later(sock)
    ensures deadline.None? ==> sock.clockFaults == old(sock.clockFaults)
    ensures w.Expired? ==> sock.expiries > old(sock.expiries) || TooLate(deadline, sock.now)
    ensures sock.readFaults == old(sock.readFaults) + (if w.Broken? then 1 else 0)
    ensures w.Expired? && sock.clockFaults > old(sock.clockFaults) && sock.faults == old(sock.faults) + 1 ==>
              sock.now == old(sock.now) + NANOS_PER_SEC
    ensures sock.faults == old(sock.faults) && w.Expired? && deadline.None? ==>
              sock.now == old(sock.now) + keepAliveSec * NANOS_PER_SEC
    ensures sock.faults == old(sock.faults) && w.Expired? && deadline.Some? &&
            Nanos(deadline.value) < old(sock.now) + MAX_WAIT ==>
              Nanos(deadline.value) < sock.now + NANOS_PER_MS
    ensures sock.faults == old(sock.faults) && deadline.None? ==>
              sock.now <= old(sock.now) + keepAliveSec * NANOS_PER_SEC
    ensures sock.faults == old(sock.faults) && deadline.Some? ==>
              sock.now <= old(sock.now) || sock.now <= Nanos(deadline.value)
  {
    var timeoutMs: nat;
    if deadline.None? {
      timeoutMs := keepAliveSec * 1000;
    } else {
      var t := sock.Clock();
      if t.None? {
        timeoutMs := 1000;
      } else {
        RemainingFits(deadline.value, t.value);
        timeoutMs := RemainingMs(deadline.value, t.value);
      }
      if timeoutMs == 0 {
        return Expired;
      }
    }
    w := WaitReadable(sock, timeoutMs);
  }

  /** What a call answers is decided by the whole stream that was pending, and what it leaves pending
      is that stream without the message returned. */
  ghost predicate Outcome(r: ReadResult, stream: bytes, rest: bytes, length: nat) {
    match r
    case Message(d) => Extract(stream) == Extraction.Ready(|d|) && d + rest == stream
    case Rejected(why) => Extract(stream) == Fail(why) && length == 0
    case ClientClosed => Extract(stream) == NeedMore && rest == []
    case Timeout => rest == stream
    case IoError => true
  }

  // -------------------------------------------------------------- the two timeouts

  /** No interruption, no clock failure and no stalled read since these counts. */
  ghost predicate Undisturbed(sock: Socket, faults: nat, stalls: nat)
    reads sock
  {
    sock.faults == faults && sock.stalls == stalls
  }

  /** A request is due its timeout after its first byte: at the start of the call if that byte was
      buffered already, else during the keep-alive wait. */
  predicate DueWithin(due: nat, buffered: nat, start: nat, ka: nat, rq: nat) {
    if buffered > 0 then due == start + rq * NANOS_PER_SEC
    else start + rq * NANOS_PER_SEC <= due <= start + (ka + rq) * NANOS_PER_SEC
  }

  /** What one undisturbed wait does to clock and deadline. */
  predicate Waited(deadline: Option<Timespec>, before: nat, deadline': Option<Timespec>, now: nat, ka: nat, rq: nat) {
    && before <= now
    && match deadline
       case None =>
         && now <= before + ka * NANOS_PER_SEC
         && (deadline'.Some? ==> Nanos(deadline'.value) == now + rq * NANOS_PER_SEC)
       case Some(d) => deadline' == deadline && (now <= before || now <= Nanos(d))
  }

  /** When an undisturbed wait expires; a wait that was cut to 1000 s is exempt. */
  predicate ExpiredInTime(deadline: Option<Timespec>, before: nat, now: nat, ka: nat) {
    match deadline
    case None => now == before + ka * NANOS_PER_SEC
    case Some(d) => Nanos(d) < before + MAX_WAIT ==> Nanos(d) < now + NANOS_PER_MS
  }

  /** A timeout without faults: within the keep-alive timeout if no byte came, else not past the due. */
  predicate GivenUp(length: nat, due: nat, buffered: nat, start: nat, now: nat, ka: nat, rq: nat) {
    if length == 0 then now <= start + ka * NANOS_PER_SEC
    else now <= due && DueWithin(due, buffered, start, ka, rq)
  }

  /** And not before its time: exactly at the keep-alive timeout, or in the last millisecond. */
  predicate NotEarly(length: nat, due: nat, start: nat, now: nat, ka: nat) {
    if length == 0 then now == start + ka * NANOS_PER_SEC else due < now + NANOS_PER_MS
  }

  /** What the loop keeps of the time while nothing disturbs it. */
  predicate OnTime(deadline: Option<Timespec>, now: nat, start: nat, buffered: nat, ka: nat, rq: nat) {
    match deadline
    case None => now == start
    case Some(d) =>
      && now <= Nanos(d) <= now + rq * NANOS_PER_SEC
      && DueWithin(Nanos(d), buffered, start, ka, rq)
  }

  lemma StartsOnTime(deadline: Option<Timespec>, start: nat, buffered: nat, ka: nat, rq: nat)
    requires deadline.Some? <==> buffered > 0
    requires deadline.Some? ==> Nanos(deadline.value) == start + rq * NANOS_PER_SEC
    ensures OnTime(deadline, start, start, buffered, ka, rq)
  {}

  lemma OnTimeStep(was: Option<Timespec>, moment: nat, deadline: Option<Timespec>, now: nat,
                   start: nat, buffered: nat, ka: nat, rq: nat)
    requires OnTime(was, moment, start, buffered, ka, rq) && Waited(was, moment, deadline, now, ka, rq)
    requires was.None? ==> buffered == 0
    ensures deadline.Some? ==> OnTime(deadline, now, start, buffered, ka, rq)
  {}

  /** How long a call may take: the keep-alive wait is over once a byte of the request is buffered. */
  function Patience(buffered: nat, ka: nat, rq: nat): nat { if buffered > 0 then rq else ka + rq }

  lemma WaitEnds(was: Option<Timespec>, moment: nat, deadline: Option<Timespec>, now: nat, length: nat, due: nat,
                 start: nat, buffered: nat, ka: nat, rq: nat)
    requires OnTime(was, moment, start, buffered, ka, rq) && Waited(was, moment, deadline, now, ka, rq)
    requires if length == 0 then was.None? && buffered == 0 else was.Some? && due == Nanos(was.value)
    ensures now <= start + Patience(buffered, ka, rq) * NANOS_PER_SEC
    ensures GivenUp(length, due, buffered, start, now, ka, rq)
    ensures ExpiredInTime(was, moment, now, ka) && rq <= 1000 ==> NotEarly(length, due, start, now, ka)
  {}

  /** Why a call times out: a wait expired, or the request has had its time but for a millisecond. */
  predicate RanOut(waits: nat, waits': nat, start: nat, now: nat, rq: nat) {
    waits < waits' || start + rq * NANOS_PER_SEC < now + NANOS_PER_MS
  }

  /** A configured timeout, at least one second. */
  function AtLeastOne(sec: int): (r: nat)
    ensures r >= 1 && r >= sec && (r == 1 || r == sec)
  {
    if sec < 1 then 1 else sec
  }

  // ------------------------------------------------------------------- buffer

  class HttpReader {
    var data: array<byte>
    var length: nat

    ghost predicate Valid()
      reads this
    {
      length <= data.Length <= MAX_MESSAGE_BYTES
    }

    /** The buffered bytes. */
    ghost function Contents(): bytes
      requires Valid()
      reads this, data
    {
      data[..length]
    }

    /** Everything of the stream that has not been returned yet. */
    ghost function Pending(sock: Socket): bytes
      requires Valid()
      reads this, data, sock
    {
      Contents() + sock.incoming
    }

    constructor ()
      ensures Valid() && Contents() == [] && fresh(data)
    {
      data, length := new byte[0], 0;
    }

    /** `ensure_capacity`: doubles up to the message limit and keeps the contents. */
    method EnsureCapacity(needed: nat) returns (ok: bool)
      requires Valid()
      modifies this`data
      ensures Valid() && (data == old(data) || fresh(data))
      ensures Contents() == old(Contents())
      ensures ok <==> needed <= MAX_MESSAGE_BYTES
      ensures ok ==> needed <= data.Length
      ensures data.Length >= old(data.Length)
      ensures !ok || needed <= old(data.Length) ==> data == old(data)
      ensures data.Length == old(data.Length) || data.Length == INITIAL_CAPACITY || data.Length < 2 * needed
    {
      if needed <= data.Length {
        return true;
      }
      if needed > MAX_MESSAGE_BYTES {
        return false;
      }
      var capacity := if data.Length == 0 then INITIAL_CAPACITY else data.Length;
      while capacity < needed
        invariant 0 < capacity <= MAX_MESSAGE_BYTES && data.Length <= capacity
        invariant capacity == data.Length || capacity == INITIAL_CAPACITY || capacity < 2 * needed
        decreases MAX_MESSAGE_BYTES - capacity
      {
        if capacity > MAX_MESSAGE_BYTES / 2 {
          capacity := MAX_MESSAGE_BYTES;
          break;
        }
        capacity := capacity * 2;
      }
      var grown := new byte[capacity];
      forall i | 0 <= i < length {
        grown[i] := data[i];
      }
      data := grown;
      return true;
    }

    /** `try_extract_length`. */
    method TryExtractLength() returns (e: Extraction)
      requires Valid()
      ensures e == Extract(Contents())
    {
      var buf := data[..length];
      var t := FindHeaderTerminator(buf);
      if t < 0 {
        return if length >= MAX_HEADER_BYTES then Fail(TooLarge) else NeedMore;
      }
      var h := buf[..t + 4];
      assert h == HeaderPart(buf);
      if |h| > MAX_HEADER_BYTES {
        return Fail(TooLarge);
      }
      var framing := InspectMessageFraming(h);
      if framing.Err? {
        return Fail(MapFramingError(framing.error));
      }
      if framing.value > MAX_MESSAGE_BYTES - |h| {
        return Fail(TooLarge);
      }
      var total := |h| + framing.value;
      return if length < total then NeedMore else Extraction.Ready(total);
    }

    /** How far the buffer must reach before another recv is worth it. The exits the source keeps
        for an oversized header, bad framing or an oversized body are dead here. */
    method NeededBytes() returns (need: nat)
      requires Valid() && Extract(Contents()) == NeedMore
      ensures length < need <= MAX_MESSAGE_BYTES
      ensures FirstTerm(Contents()) < 0 ==>
                need == if length + RECV_CHUNK <= MAX_HEADER_BYTES then length + RECV_CHUNK else MAX_HEADER_BYTES
      ensures FirstTerm(Contents()) >= 0 ==>
                |HeaderPart(Contents())| <= need &&
                InspectFraming(HeaderPart(Contents())) == Ok(need - |HeaderPart(Contents())|)
    {
      hide InspectFraming, FirstTerm;
      need := length + RECV_CHUNK;
      var buf := data[..length];
      var t := FindHeaderTerminator(buf);
      if t < 0 {
        if length >= MAX_HEADER_BYTES { assert false; }
        if need > MAX_HEADER_BYTES {
          need := MAX_HEADER_BYTES;
        }
        if need <= length { assert false; }
      } else {
        var h := buf[..t + 4];
        assert h == HeaderPart(buf);
        var framing := InspectMessageFraming(h);
        if framing.Err? { assert false; }
        NoBodyOverflow(h);
        if framing.value > MAX_MESSAGE_BYTES - |h| { assert false; }
        need := |h| + framing.value;
      }
    }

    /** `take_message`: copies the message out and moves the rest to the front. */
    method TakeMessage(n: nat) returns (msg: bytes)
      requires Valid() && n <= length
      modifies this`length, data
      ensures Valid()
      ensures msg == old(Contents())[..n] && Contents() == old(Contents())[n..]
    {
      msg := data[..n];
      var remaining := length - n;
      forall i | 0 <= i < remaining {
        data[i] := data[n + i];
      }
      length := remaining;
    }

    /** What `recv` does to the buffer. */
    method Append(piece: bytes)
      requires Valid() && |piece| <= data.Length - length
      modifies this`length, data
      ensures Valid() && Contents() == old(Contents()) + piece
    {
      forall i | 0 <= i < |piece| {
        data[length + i] := piece[i];
      }
      length := length + |piece|;
    }

    /** The start of a loop turn: hand over what is already complete, or a rejection. */
    method TakeReady() returns (r: Option<ReadResult>)
      requires Valid()
      modifies this`length, data
      ensures Valid()
      ensures r == None ==> Extract(old(Contents())) == NeedMore && Contents() == old(Contents())
      ensures r.Some? ==> r.value.Message? || r.value.Rejected?
      ensures r.Some? && r.value.Message? ==>
                && Extract(old(Contents())) == Extraction.Ready(|r.value.data|)
                && r.value.data + Contents() == old(Contents())
      ensures r.Some? && r.value.Rejected? ==> Extract(old(Contents())) == Fail(r.value.why) && length == 0
    {
      hide Extract;
      var e := TryExtractLength();
      if e.Ready? {
        ReadyBounds(Contents());
        var msg := TakeMessage(e.length);
        return Some(Message(msg));
      }
      if e.Fail? {
        length := 0;
        return Some(Rejected(e.why));
      }
      return None;
    }

    /** Room for the next recv. The source's exits for a full buffer are dead here. */
    method MakeRoom() returns (space: nat)
      requires Valid() && Extract(Contents()) == NeedMore
      modifies this`data
      ensures Valid() && (data == old(data) || fresh(data))
      ensures Contents() == old(Contents()) && space == data.Length - length > 0
      ensures FirstTerm(Contents()) >= 0 ==>
                InspectFraming(HeaderPart(Contents())).Ok? &&
                |HeaderPart(Contents())| + InspectFraming(HeaderPart(Contents())).value <= data.Length
    {
      var need := NeededBytes();
      var ok := EnsureCapacity(need);
      if !ok { assert false; }
      space := data.Length - length;
      if space == 0 { assert false; }
    }

    /** What follows a successful recv: the deadline is started on the first byte, which needs the clock,
        and the piece goes into the buffer. `ok` is false when the clock failed; the piece is dropped then. */
    method Absorb(sock: Socket, deadline: Option<Timespec>, rq: nat, piece: bytes)
      returns (ok: bool, deadline': Option<Timespec>)
      requires Valid() && 0 < |piece| <= data.Length - length
      requires deadline.Some? ==> Normalized(deadline.value)
      modifies this`length, data, sock`faults, sock`clockFaults, sock`budget
      ensures Valid() && Later(sock)
      ensures Contents() == old(Contents()) + (if ok then piece else [])
      ensures ok ==> sock.faults == old(sock.faults) && sock.clockFaults == old(sock.clockFaults)
      ensures !ok ==> deadline.None? && deadline' == None && sock.clockFaults > old(sock.clockFaults)
      ensures !ok ==> sock.faults > old(sock.faults)
      ensures ok ==> deadline'.Some? && Normalized(deadline'.value)
      ensures ok && deadline.Some? ==> deadline' == deadline
      ensures ok && deadline.None? ==> Nanos(deadline'.value) == sock.now + rq * NANOS_PER_SEC
    {
      deadline' := deadline;
      if deadline.None? {
        var t := sock.Clock();
        if t.None? {
          return false, None;
        }
        deadline' := Some(Timespec(t.value.sec + rq, t.value.nsec));
      }
      Append(piece);
      return true, deadline';
    }

    /** The rest of a loop turn: wait, recv, and start the request deadline on the first byte. `lost` is
        what left the socket and reached neither the buffer nor the caller: the piece received when the
        clock fails before the deadline could be started, and nothing in any other case. */
    method ReceiveMore(sock: Socket, deadline: Option<Timespec>, ka: nat, rq: nat, space: nat)
      returns (r: Option<ReadResult>, deadline': Option<Timespec>, ghost lost: bytes)
      requires Valid() && space == data.Length - length > 0
      requires deadline.Some? <==> length > 0
      requires deadline.Some? ==> Normalized(deadline.value)
      modifies this`length, data, sock`incoming, sock`now, sock`faults, sock`clockFaults, sock`stalls,
               sock`expiries, sock`readFaults, sock`ends, sock`budget
      ensures Valid()
      ensures r.Some? ==> r.value.Timeout? || r.value.IoError? || r.value.ClientClosed?
      ensures r == None ==> Pending(sock) == old(Pending(sock))
      ensures r == None ==>
                || length > old(length)
                || (length == old(length) && sock.budget < old(sock.budget) && sock.faults > old(sock.faults))
      ensures r == None ==> (deadline'.Some? <==> length > 0)
      ensures deadline'.Some? ==> Normalized(deadline'.value)
      ensures deadline'.Some? && deadline' != deadline ==>
                Nanos(deadline'.value) >= old(sock.now) + rq * NANOS_PER_SEC
      ensures length == 0 && (r == None || r == Some(Timeout)) ==>
                sock.incoming == old(sock.incoming) && old(length) == 0
      ensures r == Some(Timeout) || r == Some(IoError) ==>
                length == old(length) && Contents() == old(Contents()) && deadline' == deadline
      ensures r == Some(Timeout) ==> Pending(sock) == old(Pending(sock))
      ensures r == Some(ClientClosed) ==> old(Pending(sock)) == old(Contents()) && Pending(sock) == []
      ensures r == Some(IoError) ==> old(Pending(sock)) == Contents() + lost + sock.incoming
      ensures lost != [] <==> deadline.None? && sock.clockFaults > old(sock.clockFaults)
      ensures lost != [] ==> r == Some(IoError) && |lost| <= space && old(sock.incoming) == lost + sock.incoming
      ensures Later(sock)
      ensures r == Some(Timeout) ==>
                sock.expiries > old(sock.expiries) || sock.stalls > old(sock.stalls) || TooLate(deadline, sock.now)
      ensures r == Some(IoError) ==> sock.readFaults > old(sock.readFaults) || sock.clockFaults > old(sock.clockFaults)
      ensures r == Some(ClientClosed) ==> sock.ends > old(sock.ends)
      ensures sock.faults == old(sock.faults) ==> Waited(deadline, old(sock.now), deadline', sock.now, ka, rq)
      ensures r == Some(Timeout) && Undisturbed(sock, old(sock.faults), old(sock.stalls)) ==>
                ExpiredInTime(deadline, old(sock.now), sock.now, ka)
    {
      deadline', lost := deadline, [];
      var w := AwaitInput(sock, deadline, ka);
      if w.Expired? {
        return Some(Timeout), deadline', [];
      }
      if w.Broken? {
        return Some(IoError), deadline', [];
      }
      var got := sock.Recv(space);
      match got
      case RecvInterrupted => return None, deadline', [];
      case WouldBlock => return Some(Timeout), deadline', [];
      case RecvFailed => return Some(IoError), deadline', [];
      case Eof =>
        length := 0;
        return Some(ClientClosed), deadline', [];
      case Data(piece) =>
        var ok;
        ok, deadline' := Absorb(sock, deadline, rq, piece);
        if !ok {
          return Some(IoError), deadline', piece;
        }
        return None, deadline', [];
    }

    /** One turn of the loop: what is complete, or room, a wait and a recv. */
    method Round(sock: Socket, deadline: Option<Timespec>, ka: nat, rq: nat)
      returns (done: Option<ReadResult>, deadline': Option<Timespec>, ghost lost: bytes)
      requires Valid()
      requires deadline.Some? <==> length > 0
      requires deadline.Some? ==> Normalized(deadline.value)
      modifies this, data, sock`incoming, sock`now, sock`faults, sock`clockFaults, sock`stalls,
               sock`expiries, sock`readFaults, sock`ends, sock`budget
      ensures Valid() && (data == old(data) || fresh(data))
      ensures done == None ==> Pending(sock) == old(Pending(sock)) && (deadline'.Some? <==> length > 0)
      ensures done == None ==>
                || length > old(length)
                || (length == old(length) && sock.budget < old(sock.budget) && sock.faults > old(sock.faults))
      ensures done == None && length == 0 ==>
                sock.incoming == old(sock.incoming) && sock.clockFaults == old(sock.clockFaults)
      ensures deadline'.Some? ==> Normalized(deadline'.value)
      ensures deadline'.Some? && deadline' != deadline ==>
                Nanos(deadline'.value) >= old(sock.now) + rq * NANOS_PER_SEC
      ensures done.Some? ==> Outcome(done.value, old(Pending(sock)), Pending(sock), length)
      ensures done == Some(Timeout) || done == Some(IoError) ==> length == old(length)
      ensures done == Some(Timeout) && length == 0 ==> sock.incoming == old(sock.incoming)
      ensures done == Some(IoError) ==> old(Pending(sock)) == Contents() + lost + sock.incoming
      ensures lost != [] ==> done == Some(IoError) && length == 0 && old(sock.incoming) == lost + sock.incoming
      ensures done == Some(IoError) && length == 0 ==> (lost != [] <==> sock.clockFaults > old(sock.clockFaults))
      ensures Later(sock)
      ensures done == Some(Timeout) ==>
                sock.expiries > old(sock.expiries) || sock.stalls > old(sock.stalls) || TooLate(deadline, sock.now)
      ensures done == Some(IoError) ==>
                sock.readFaults > old(sock.readFaults) || sock.clockFaults > old(sock.clockFaults)
      ensures done == Some(ClientClosed) ==> sock.ends > old(sock.ends)
      ensures Extract(old(Contents())) != NeedMore ==> done.Some? && (done.value.Message? || done.value.Rejected?)
      ensures done == Some(Timeout) ==> Extract(Contents()) == NeedMore
      ensures sock.faults == old(sock.faults) ==> Waited(deadline, old(sock.now), deadline', sock.now, ka, rq)
      ensures done == Some(Timeout) && Undisturbed(sock, old(sock.faults), old(sock.stalls)) ==>
                ExpiredInTime(deadline, old(sock.now), sock.now, ka)
    {
      hide Extract;
      ghost var front, behind, stream := Contents(), sock.incoming, Pending(sock);
      done := TakeReady();
      if done.Some? {
        ExtractStable(front, stream);
        assert done.value.Message? ==> done.value.data + Pending(sock) == (done.value.data + Contents()) + behind;
        return done, deadline, [];
      }
      var space := MakeRoom();
      done, deadline', lost := ReceiveMore(sock, deadline, ka, rq, space);
    }

    /** `http_reader_next_request`. Whatever the schedule of polls, short reads and interruptions:
        a message, a rejection or a close is what `Extract` says of the whole unread stream, and a
        timeout loses no byte. An I/O error loses bytes exactly when the clock failed while nothing was
        buffered, which is right behind the first successful recv; `lost` are those bytes. Without
        faults the call ends within the request timeout if bytes were already buffered, within the
        keep-alive timeout if none arrive, and otherwise within both together; and if no read stalls
        either, a timeout comes exactly with the keep-alive timeout or less than a millisecond before
        the request is `due`. */
    method NextRequest(sock: Socket, keepAliveSec: int, requestSec: int)
      returns (r: ReadResult, ghost lost: bytes, ghost due: nat)
      requires Valid()
      modifies this, data, sock`incoming, sock`now, sock`faults, sock`clockFaults, sock`stalls,
               sock`expiries, sock`readFaults, sock`ends, sock`budget
      ensures Valid() && (data == old(data) || fresh(data))
      ensures Outcome(r, old(Pending(sock)), Pending(sock), length)
      ensures r.Timeout? ==> (length == 0 <==> old(length) == 0 && sock.incoming == old(sock.incoming))
      ensures r.IoError? ==> old(Pending(sock)) == Contents() + lost + sock.incoming
      ensures lost != [] <==> r.IoError? && length == 0 && sock.clockFaults > old(sock.clockFaults)
      ensures lost != [] ==> old(length) == 0 && old(sock.incoming) == lost + sock.incoming
      ensures Later(sock)
      ensures r.Timeout? ==> Extract(Contents()) == NeedMore
      ensures r.Timeout? ==> RanOut(old(sock.expiries + sock.stalls), sock.expiries + sock.stalls,
                                    old(sock.now), sock.now, AtLeastOne(requestSec))
      ensures r.IoError? ==> sock.readFaults > old(sock.readFaults) || sock.clockFaults > old(sock.clockFaults)
      ensures r.ClientClosed? ==> sock.ends > old(sock.ends)
      ensures Extract(old(Contents())) != NeedMore && sock.clockFaults == old(sock.clockFaults) ==>
                r.Message? || r.Rejected?
      ensures sock.faults == old(sock.faults) ==>
                var patience := Patience(old(length), AtLeastOne(keepAliveSec), AtLeastOne(requestSec));
                sock.now <= old(sock.now) + patience * NANOS_PER_SEC
      ensures r.Timeout? && sock.faults == old(sock.faults) ==>
                var ka, rq := AtLeastOne(keepAliveSec), AtLeastOne(requestSec);
                GivenUp(length, due, old(length), old(sock.now), sock.now, ka, rq)
      ensures r.Timeout? && Undisturbed(sock, old(sock.faults), old(sock.stalls)) && requestSec <= 1000 ==>
                NotEarly(length, due, old(sock.now), sock.now, AtLeastOne(keepAliveSec))
    {
      hide Extract, OnTime, Waited, ExpiredInTime, GivenUp, NotEarly, Patience;
      var ka, rq := AtLeastOne(keepAliveSec), AtLeastOne(requestSec);
      ghost var stream := Pending(sock);
      ghost var start, before := sock.now, length;
      var deadline: Option<Timespec> := None;
      lost, due := [], 0;
      if length > 0 {
        var t := sock.Clock();
        if t.None? {
          return IoError, [], 0;
        }
        deadline := Some(Timespec(t.value.sec + rq, t.value.nsec));
      }
      StartsOnTime(deadline, start, before, ka, rq);
      while true
        invariant Valid() && (data == old(data) || fresh(data))
        invariant Pending(sock) == stream
        invariant deadline.Some? <==> length > 0
        invariant deadline.Some? ==> Normalized(deadline.value)
        invariant deadline.Some? ==> Nanos(deadline.value) >= start + rq * NANOS_PER_SEC
        invariant length == 0 ==> sock.incoming == old(sock.incoming) && old(length) == 0
        invariant length == 0 ==> sock.clockFaults == old(sock.clockFaults)
        invariant Later(sock)
        invariant Extract(old(Contents())) == NeedMore || Contents() == old(Contents())
        invariant sock.faults == old(sock.faults) ==> OnTime(deadline, sock.now, start, before, ka, rq)
        decreases MAX_MESSAGE_BYTES - length, sock.budget
      {
        ghost var moment, was, held := sock.now, deadline, length;
        due := if deadline.Some? then Nanos(deadline.value) else 0;
        var done;
        done, deadline, lost := Round(sock, deadline, ka, rq);
        if sock.faults == old(sock.faults) {
          OnTimeStep(was, moment, deadline, sock.now, start, before, ka, rq);
          if done.Some? {
            WaitEnds(was, moment, deadline, sock.now, held, due, start, before, ka, rq);
          }
        }
        if done.Some? {
          return done.value, lost, due;
        }
      }
    }
  }
}
