/** Sending: the partial-send loop, file bodies, and a whole response. */
module Transfer {
  import opened Bytes
  import opened Sockets
  import opened Responses
  import opened Serializer

  const SEND_CHUNK: nat := 32768

  /** `send_all`: `sent` bytes went out, all of them exactly on success. */
  method SendAll(sock: Socket, data: bytes) returns (ok: bool, sent: nat)
    modifies sock`outgoing, sock`faults, sock`sendFaults, sock`budget
    ensures sent <= |data| && (ok <==> sent == |data|)
    ensures sock.outgoing == old(sock.outgoing) + data[..sent]
    ensures Later(sock) && (!ok ==> sock.sendFaults > old(sock.sendFaults))
  {
    sent := 0;
    while sent < |data|
      invariant sent <= |data|
      invariant sock.outgoing == old(sock.outgoing) + data[..sent] && Later(sock)
      decreases |data| - sent, sock.budget
    {
      var r := sock.Send(data[sent..]);
      match r
      case SendInterrupted =>
      case SendFailed => return false, sent;
      case Sent(n) =>
        if n == 0 {
          return false, sent;
        }
        var next := sent + n;
        assert data[..next] == data[..sent] + data[sent..][..n];
        sent := next;
    }
    return true, sent;
  }

  datatype FileResult = Moved(count: nat) | FileInterrupted | Unsupported | FileFailed
  datatype ReadOutcome = Chunk(data: bytes) | ReadInterrupted | ReadFailed

  /** An open descriptor of a regular file. */
  class FileHandle {
    const content: bytes
    var pos: nat

    constructor (content: bytes)
      ensures this.content == content && pos == 0
    {
      this.content, pos := content, 0;
    }

    /** `sendfile` with an explicit offset: moves a prefix of what is asked, up to the end of file. That it
        does not work for this file is no failure as long as nothing was sent. */
    method SendFile(sock: Socket, offset: nat, count: nat) returns (r: FileResult)
      requires count > 0
      modifies sock`outgoing, sock`faults, sock`sendFaults, sock`budget
      ensures r.Moved? ==> r.count <= count && (r.count > 0 ==> offset + r.count <= |content|)
      ensures r.Moved? && r.count > 0 ==> sock.outgoing == old(sock.outgoing) + content[offset..offset + r.count]
      ensures !r.Moved? || r.count == 0 ==> sock.outgoing == old(sock.outgoing)
      ensures r.FileInterrupted? ==> sock.budget == old(sock.budget) - 1 && sock.faults == old(sock.faults) + 1
      ensures !r.FileInterrupted? ==> sock.budget == old(sock.budget) && sock.faults == old(sock.faults)
      ensures sock.sendFaults == old(sock.sendFaults) +
                (if r == Moved(0) || r.FileFailed? || (r.Unsupported? && offset > 0) then 1 else 0)
    {
      var answer: int := *;
      if answer == 0 && sock.budget > 0 {
        sock.Fault();
        return FileInterrupted;
      } else if answer == 1 {
        sock.sendFaults := sock.sendFaults + (if offset > 0 then 1 else 0);
        return Unsupported;
      } else if answer == 2 {
        sock.sendFaults := sock.sendFaults + 1;
        return FileFailed;
      } else if offset >= |content| {
        sock.sendFaults := sock.sendFaults + 1;
        return Moved(0);
      }
      var n: nat :| n <= count && offset + n <= |content|;
      if n == 0 {
        sock.sendFaults := sock.sendFaults + 1;
      } else {
        sock.outgoing := sock.outgoing + content[offset..offset + n];
      }
      return Moved(n);
    }

    /** `read` at the current position; an empty chunk is end of file. */
    method Read(sock: Socket, want: nat) returns (r: ReadOutcome)
      requires want > 0
      modifies `pos, sock`faults, sock`sendFaults, sock`budget
      ensures r.Chunk? ==> |r.data| <= want && pos == old(pos) + |r.data|
      ensures r.Chunk? && r.data != [] ==> pos <= |content| && r.data == content[old(pos)..pos]
      ensures !r.Chunk? ==> pos == old(pos)
      ensures r.ReadInterrupted? ==> sock.budget == old(sock.budget) - 1 && sock.faults == old(sock.faults) + 1
      ensures !r.ReadInterrupted? ==> sock.budget == old(sock.budget) && sock.faults == old(sock.faults)
      ensures sock.sendFaults == old(sock.sendFaults) + (if r == Chunk([]) || r.ReadFailed? then 1 else 0)
    {
      var answer: int := *;
      if answer == 0 && sock.budget > 0 {
        sock.Fault();
        return ReadInterrupted;
      } else if answer == 1 {
        sock.sendFaults := sock.sendFaults + 1;
        return ReadFailed;
      } else if pos >= |content| {
        sock.sendFaults := sock.sendFaults + 1;
        return Chunk([]);
      }
      var n: nat :| 0 < n <= want && pos + n <= |content|;
      r := Chunk(content[pos..pos + n]);
      pos := pos + n;
    }

    /** `lseek(fd, offset, SEEK_SET)`. */
    method Seek(sock: Socket, offset: nat) returns (ok: bool)
      modifies `pos, sock`sendFaults
      ensures if ok then pos == offset else pos == old(pos)
      ensures sock.sendFaults == old(sock.sendFaults) + (if ok then 0 else 1)
    {
      var fails: bool := *;
      if fails {
        sock.sendFaults := sock.sendFaults + 1;
      } else {
        pos := offset;
      }
      return !fails;
    }
  }

  /** The `sendfile` loop. `fallback` says that nothing was sent and the portable path must run. */
  method SendFileLoop(sock: Socket, file: FileHandle, length: nat) returns (ok: bool, fallback: bool, sent: nat)
    modifies sock`outgoing, sock`faults, sock`sendFaults, sock`budget
    ensures sent <= length && sent <= |file.content|
    ensures sock.outgoing == old(sock.outgoing) + file.content[..sent]
    ensures ok <==> sent == length
    ensures fallback ==> sent == 0 && !ok
    ensures Later(sock) && (!ok && !fallback ==> sock.sendFaults > old(sock.sendFaults))
  {
    sent := 0;
    while sent < length
      invariant sent <= length && sent <= |file.content|
      invariant sock.outgoing == old(sock.outgoing) + file.content[..sent] && Later(sock)
      decreases length - sent, sock.budget
    {
      var r := file.SendFile(sock, sent, length - sent);
      match r
      case FileInterrupted =>
      case Unsupported => return false, sent == 0, sent;
      case FileFailed => return false, false, sent;
      case Moved(n) =>
        if n == 0 {
          return false, false, sent;
        }
        var next := sent + n;
        assert file.content[..next] == file.content[..sent] + file.content[sent..sent + n];
        sent := next;
    }
    return true, false, sent;
  }

  /** The bounded read-and-send loop, from the start of the file. */
  method ReadSendLoop(sock: Socket, file: FileHandle, length: nat) returns (ok: bool, sent: nat)
    requires file.pos == 0
    modifies file`pos, sock`outgoing, sock`faults, sock`sendFaults, sock`budget
    ensures sent <= length && sent <= |file.content|
    ensures sock.outgoing == old(sock.outgoing) + file.content[..sent]
    ensures ok <==> sent == length
    ensures Later(sock) && (!ok ==> sock.sendFaults > old(sock.sendFaults))
  {
    sent := 0;
    while sent < length
      invariant sent <= length && sent <= |file.content| && file.pos == sent
      invariant sock.outgoing == old(sock.outgoing) + file.content[..sent] && Later(sock)
      decreases length - sent, sock.budget
    {
      var want := if length - sent < SEND_CHUNK then length - sent else SEND_CHUNK;
      var r := file.Read(sock, want);
      match r
      case ReadInterrupted =>
      case ReadFailed => return false, sent;
      case Chunk(data) =>
        if data == [] {
          return false, sent;
        }
        assert data == file.content[sent..sent + |data|];
        var all, k := SendAll(sock, data);
        var next := sent + k;
        assert file.content[..next] == file.content[..sent] + data[..k];
        sent := next;
        if !all {
          return false, sent;
        }
    }
    return true, sent;
  }

  /** `send_file_body`: for every schedule of partial sendfile calls, interruptions, the fallback to
      read and send, short reads and short sends, the first `sent` bytes of the file went out once
      and in order; success means exactly the declared length. */
  method SendFileBody(sock: Socket, file: FileHandle, length: nat) returns (ok: bool, sent: nat)
    modifies file`pos, sock`outgoing, sock`faults, sock`sendFaults, sock`budget
    ensures sent <= length && sent <= |file.content|
    ensures sock.outgoing == old(sock.outgoing) + file.content[..sent]
    ensures ok <==> sent == length
    ensures Later(sock) && (!ok ==> sock.sendFaults > old(sock.sendFaults))
  {
    if length == 0 {
      return true, 0;
    }
    var fallback;
    ok, fallback, sent := SendFileLoop(sock, file, length);
    if ok || !fallback {
      return;
    }
    var sought := file.Seek(sock, 0);
    if !sought {
      return;
    }
    ok, sent := ReadSendLoop(sock, file, length);
  }

  /** The body part of `http_response_send`. */
  method SendBody(sock: Socket, b: Body) returns (ok: bool, sent: nat)
    modifies sock`outgoing, sock`faults, sock`sendFaults, sock`budget
    ensures sent <= |BodyBytes(b)| && sock.outgoing == old(sock.outgoing) + BodyBytes(b)[..sent]
    ensures ok ==> Whole(b) && sent == |BodyBytes(b)|
    ensures !ok ==> sent < BodyLength(b)
    ensures Later(sock) && (!ok ==> sock.sendFaults > old(sock.sendFaults))
  {
    match b
    case NoBody => return true, 0;
    case Memory(data) =>
      ok, sent := SendAll(sock, data);
    case File(content, size) =>
      var file := new FileHandle(content);
      ok, sent := SendFileBody(sock, file, size);
      assert content[..sent] == BodyBytes(b)[..sent];
  }

  lemma HeadNotEmpty(r: Response)
    ensures |Head(r)| > 0
  {
    assert |Head(r)| >= |CRLF|;
  }

  /** `http_response_send`: success means the whole response, failure a prefix of it that is
      shorter than its Content-Length declares. */
  method SendResponse(sock: Socket, r: Response, omitBody: bool) returns (ok: bool, sent: nat)
    modifies sock`outgoing, sock`faults, sock`sendFaults, sock`budget
    ensures sent <= |Wire(r, omitBody)|
    ensures sock.outgoing == old(sock.outgoing) + Wire(r, omitBody)[..sent]
    ensures ok ==> sent == |Wire(r, omitBody)| && (omitBody || Whole(r.body))
    ensures !ok ==> sent < DeclaredSize(r, omitBody)
    ensures Later(sock) && (!ok && BuffersFit(r) ==> sock.sendFaults > old(sock.sendFaults))
  {
    hide Head, BodyBytes;
    ghost var w, h := Wire(r, omitBody), Head(r);
    HeadNotEmpty(r);
    var head, length := SerializeHeaders(r);
    if head.None? {
      return false, 0;
    }
    assert head.value[..length] == h;
    ok, sent := SendAll(sock, head.value[..length]);
    assert w[..sent] == h[..sent];
    if !ok || omitBody {
      return;
    }
    var k;
    ok, k := SendBody(sock, r.body);
    assert w[..|h| + k] == h + BodyBytes(r.body)[..k];
    sent := length + k;
  }
}
