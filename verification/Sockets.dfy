/** The operating system as seen by one connection: a clock, a byte stream in, a byte stream out.
    Each call is an oracle: its contract admits every answer the system may give, so a proof about
    a caller holds for every schedule of short reads, short writes, interruptions and failures. */
module Sockets {
  import opened Bytes

  const NANOS_PER_SEC: nat := 1_000_000_000
  const NANOS_PER_MS: nat := 1_000_000

  datatype Timespec = Timespec(sec: nat, nsec: nat)

  predicate Normalized(t: Timespec) { t.nsec < NANOS_PER_SEC }

  function Nanos(t: Timespec): nat { t.sec * NANOS_PER_SEC + t.nsec }

  datatype PollResult = Readable | TimedOut | PollInterrupted | PollFailed
  datatype RecvResult = Data(data: bytes) | Eof | RecvInterrupted | WouldBlock | RecvFailed
  datatype SendResult = Sent(count: nat) | SendInterrupted | SendFailed

  class Socket {
    var incoming: bytes  // what the peer still delivers before it closes its side
    var outgoing: bytes  // what has been handed to the peer
    var now: nat         // the monotonic clock, in nanoseconds
    var faults: nat      // interruptions and clock failures so far
    var clockFaults: nat // the clock failures among them
    var stalls: nat      // reads that would have blocked although poll had reported input
    var expiries: nat    // polls that timed out
    var readFaults: nat  // polls and reads that failed
    var ends: nat        // reads that found the end of the stream
    var sendFaults: nat  // calls for sending that failed or moved nothing
    var budget: nat      // interruptions and clock failures still to come

    constructor (stream: bytes, interruptions: nat)
      ensures incoming == stream && outgoing == [] && budget == interruptions
      ensures faults == 0 && clockFaults == 0 && stalls == 0
      ensures expiries == 0 && readFaults == 0 && ends == 0 && sendFaults == 0
    {
      incoming, outgoing, now, budget := stream, [], 0, interruptions;
      faults, clockFaults, stalls := 0, 0, 0;
      expiries, readFaults, ends, sendFaults := 0, 0, 0, 0;
    }

    method Fault()
      requires budget > 0
      modifies `faults, `budget
      ensures faults == old(faults) + 1 && budget == old(budget) - 1
    {
      faults, budget := faults + 1, budget - 1;
    }

    /** `clock_gettime(CLOCK_MONOTONIC)`. */
    method Clock() returns (t: Option<Timespec>)
      modifies `faults, `clockFaults, `budget
      ensures t.Some? ==> Normalized(t.value) && Nanos(t.value) == now
      ensures t.Some? ==> faults == old(faults) && clockFaults == old(clockFaults) && budget == old(budget)
      ensures t.None? ==> faults == old(faults) + 1 && clockFaults == old(clockFaults) + 1 && budget == old(budget) - 1
    {
      var fails: bool := *;
      if fails && budget > 0 {
        Fault();
        clockFaults := clockFaults + 1;
        return None;
      }
      return Some(Timespec(now / NANOS_PER_SEC, now % NANOS_PER_SEC));
    }

    /** `poll` for input with a timeout in milliseconds. */
    method Poll(timeoutMs: nat) returns (r: PollResult)
      modifies `now, `faults, `expiries, `readFaults, `budget
      ensures old(now) <= now <= old(now) + timeoutMs * NANOS_PER_MS
      ensures expiries == old(expiries) + (if r.TimedOut? then 1 else 0)
      ensures readFaults == old(readFaults) + (if r.PollFailed? then 1 else 0)
      ensures r.TimedOut? ==> now == old(now) + timeoutMs * NANOS_PER_MS
      ensures r.PollInterrupted? ==> faults == old(faults) + 1 && budget == old(budget) - 1
      ensures !r.PollInterrupted? ==> faults == old(faults) && budget == old(budget)
    {
      var late := now + timeoutMs * NANOS_PER_MS;
      var answer: int := *;
      if answer == 0 && budget > 0 {
        Fault();
        return PollInterrupted;
      } else if answer == 1 {
        now := late;
        expiries := expiries + 1;
        return TimedOut;
      } else if answer == 2 {
        readFaults := readFaults + 1;
        return PollFailed;
      }
      var moment: nat :| now <= moment <= late;
      now := moment;
      return Readable;
    }

    /** `recv` into a buffer with room for `space` bytes. */
    method Recv(space: nat) returns (r: RecvResult)
      requires space > 0
      modifies `incoming, `faults, `stalls, `readFaults, `ends, `budget
      ensures r.Data? ==> 0 < |r.data| <= space && old(incoming) == r.data + incoming
      ensures !r.Data? ==> incoming == old(incoming)
      ensures r.Eof? ==> old(incoming) == []
      ensures r.RecvInterrupted? ==> faults == old(faults) + 1 && budget == old(budget) - 1
      ensures !r.RecvInterrupted? ==> faults == old(faults) && budget == old(budget)
      ensures stalls == old(stalls) + (if r.WouldBlock? then 1 else 0)
      ensures readFaults == old(readFaults) + (if r.RecvFailed? then 1 else 0)
      ensures ends == old(ends) + (if r.Eof? then 1 else 0)
    {
      var answer: int := *;
      if answer == 0 && budget > 0 {
        Fault();
        return RecvInterrupted;
      } else if answer == 1 {
        stalls := stalls + 1;
        return WouldBlock;
      } else if answer == 2 {
        readFaults := readFaults + 1;
        return RecvFailed;
      } else if incoming == [] {
        ends := ends + 1;
        return Eof;
      }
      var n: nat :| 0 < n <= space && n <= |incoming|;
      r := Data(incoming[..n]);
      incoming := incoming[n..];
    }

    /** `send`: takes a non-empty prefix, or fails. A return of 0 is a failure to the caller. */
    method Send(data: bytes) returns (r: SendResult)
      requires data != []
      modifies `outgoing, `faults, `sendFaults, `budget
      ensures sendFaults == old(sendFaults) + (if r == Sent(0) || r.SendFailed? then 1 else 0)
      ensures r.Sent? ==> r.count <= |data| && outgoing == old(outgoing) + data[..r.count]
      ensures !r.Sent? ==> outgoing == old(outgoing)
      ensures r.SendInterrupted? ==> faults == old(faults) + 1 && budget == old(budget) - 1
      ensures !r.SendInterrupted? ==> faults == old(faults) && budget == old(budget)
    {
      var answer: int := *;
      if answer == 0 && budget > 0 {
        Fault();
        return SendInterrupted;
      } else if answer == 1 {
        sendFaults := sendFaults + 1;
        return SendFailed;
      }
      var n: nat :| 0 <= n <= |data|;
      if n == 0 {
        sendFaults := sendFaults + 1;
      }
      outgoing := outgoing + data[..n];
      return Sent(n);
    }
  }

  /** Time does not go back, and what has happened has happened. */
  twostate predicate Later(sock: Socket)
    reads sock
  {
    && sock.now >= old(sock.now) && sock.budget <= old(sock.budget)
    && sock.faults >= old(sock.faults) && sock.clockFaults >= old(sock.clockFaults)
    && sock.stalls >= old(sock.stalls) && sock.expiries >= old(sock.expiries)
    && sock.readFaults >= old(sock.readFaults) && sock.ends >= old(sock.ends)
    && sock.sendFaults >= old(sock.sendFaults)
  }
}
