# CinderHTTP, verified model

A Dafny model of the parts of CinderHTTP whose correctness is not visible in any one function: cutting
a byte stream into requests, parsing them twice and agreeing, handing connections from the accept
thread to the workers, answering on a persistent connection so that the client can follow, sending
files exactly once, and turning a request target into a path under the document root.

Imperative parts of the server keep their form. The reader, the request, the response and the ring are
classes whose methods update fields and buffers; cursor loops, send loops and the connection loop are
methods with invariants. Each is proved against a function or a predicate on values, and the results
are stated about those. Threads are a transition system: each region that holds the queue lock is one
step, and sleeping, being signalled, spurious wake-ups, the abort flag, and failures are steps of their
own, so a statement about every run covers every interleaving.

## Layout

| files | contents |
|---|---|
| `Bytes`, `Lines`, `Printing` | bytes, C strings, case folding, decimal numbers; CRLF lines, header fields; printing them |
| `Framing`, `Parser`, `RequestObject`, `RoundTrip` | the two parser passes, their agreement, the request object, the canonical print |
| `Verdicts`, `Wording` | which verdict each message gets, case by case; the words of the protocol and the limits, written out |
| `Stream`, `Sockets`, `Reader` | cutting a stream into messages; the operating system as oracles; the stateful reader with its deadlines |
| `Queue`, `Protocol`, `ProtocolProofs`, `Accounting`, `ProtocolExamples` | the ring, the accept/queue/worker protocol, its invariants, the activity counter, runs that show where a promise fails |
| `Responses`, `ResponseStream`, `Serializer`, `Transfer`, `ResponseObject`, `Persistence` | the wire format and a reference client, the serializer, partial sends and file bodies, in-place header editing, keep-alive |
| `UrlDecode`, `StaticPath` | target to relative path, the join with the root, the boundary check |
| `Dispatch`, `ClientHandler`, `Conversation` | routing and handlers, the connection loop, and what a client can conclude from the bytes it gets |
| `Deviations` | requests at which the server does not do what is promised |

## How the environment is modelled

`Sockets.Socket` and `Transfer.FileHandle` stand for the system calls. Every call is a method that may
give any answer its contract admits: any non-empty part of the requested bytes, a time-out, an
interruption, a failure. Proofs about callers therefore hold for every schedule. Interruptions and
clock failures draw on a finite but arbitrary budget, so that the retry loops end; nothing else limits
them. `Socket.incoming` is everything the peer will still send before it closes its side, which is what
lets the reader's results be compared with a function of the whole stream. Computation takes no time;
only `poll` advances the clock. The oracles count what they did: polls that expired, reads that failed,
ends of file, sends that failed or moved nothing, failures of the clock. A contract that says why an
operation gave up says it in these counts, so that no operation may give up for no reason.

Route handlers and the file system are `Dispatch.Handlers`: any response that satisfies
`Responses.WellBuilt`, which is remembered, or a failure, which is counted; any answer about any path
asked for, both of which are remembered. An answer is judged against this record (`Dispatch.Work`). That
the echo handler, which copies a Content-Type from the request, gives a well-built response is proved. C strings are
byte sequences without NUL; where the C code may meet a NUL inside a longer buffer, the cut at the NUL
(`Bytes.CStr`) is explicit.

## Where the code does not do what is promised

- `docs/http_support.md`, line 88, describes `active_connections` as the number of connections enqueued or
  in flight. The start of a connection is counted after the push, so a fast
  worker can count the end first; the zero guard swallows that end, and the counter is then one too high
  for good. `ProtocolExamples.DriftExample` is such a run; `Accounting.MeaningOfActive` gives the exact
  condition.
- Only the first `Connection` field of a request is read. `Persistence.FirstFieldDecides` gives the exact
  condition under which that equals the reading of section 6.1 of RFC 7230, in terms of what the fields
  after the first one hold, and `Deviations.SecondCloseIgnored` a request the parser accepts whose
  `close` is overlooked.
- A request that asks with HEAD but gives the server no parsed request (`HEAD / HTTP/2.0`, a framing
  error, a timeout) is answered with a body, because `omit_body` is set only after a successful parse. A
  client that knows what it asked takes the header block for the whole answer. `Conversation.ClientDecodes`
  gives the exact condition over every run, and `Deviations.HeadAlwaysMisled` what every run on such a
  request is. Only the last answer of a connection can be affected.
- With document root `/` the boundary check refuses every file. `StaticPath.WithinIsComponentPrefix` gives
  the exact condition and `StaticPath.RootRefusesAll` the failing family.
- When the clock fails between the first successful `recv` of a request and the start of its deadline, the
  piece received is dropped (`src/http_reader.c`, lines 339 to 347). `Reader.HttpReader.ReceiveMore` states
  that branch: exactly that piece is lost. `Reader.HttpReader.NextRequest` gives the exact condition: an I/O
  error loses bytes if and only if the clock failed while nothing was buffered.
- The comment at `src/server.c`, lines 46 to 49, and the shutdown diagram of `docs/architecture.md`, line
  164, promise that `accept` fails with EINTR after the handler has run, so that the loop sees the flag
  promptly. A signal handled between the test at line 179 and the call at line 184, or by a worker thread,
  does not interrupt `accept`, which then waits for the next connection. `ProtocolProofs.SignalMissed` is
  that race; `ProtocolProofs.AbortLeadsToShutdown` shows that `accept` is the only place where the accept
  thread depends on anything but itself.
- When the wait of a signalled worker fails, that worker leaves with the signal: a connection may stay
  queued while another worker sleeps (`ProtocolExamples.LostWakeupExample`). `ProtocolProofs.NoLostWakeups`
  bounds the loss by one for each failed pop. If the pops of all workers fail, destroy closes what is left
  (`ProtocolExamples.LeftoverExample`).

## Model

| member | source | states |
|---|---|---|
| Bytes.HeaderNameEqual | src/http_parser.c:74-83 | walking both strings compares exactly the parts before the first NUL, byte by byte after folding the letters |
| Bytes.EqualCIMeaning | src/http_parser.c:67-83 | that comparison holds exactly for texts of one length whose bytes are pairwise equal or the capital and small form of one ASCII letter |
| Bytes.ContainsMeaning | src/http_parser.c:221 | the substring search succeeds exactly when the word stands somewhere in the text |
| Bytes.SplitJoins | src/http_connection.c:32-55 | the pieces of a list hold no separator and joined with it are the list |
| Bytes.JoinSplits | src/http_connection.c:32-55 | any separator-free pieces, joined, split back into themselves |
| Bytes.DecimalValue | src/http_response.c:330-335 | printing a length in decimal and reading the digits back gives the length |
| Bytes.ValueDecimal | src/http_parser.c:122-153 | a digit string without leading zeros is the printed form of the value read from it |
| Lines.FindHeaderTerminator | src/http_parser.c:109-120 | the index found is the first CRLFCRLF, -1 exactly when there is none |
| Lines.FirstTermPrefix | src/http_reader.c:89-95 | bytes that arrive later never move a terminator already found, nor can an earlier one appear |
| Lines.SplitFieldText | src/http_parser.c:374-412 | a field printed as `name: value` splits back into name and trimmed value |
| Lines.SplitFieldMeaning | src/http_parser.c:374-412 | a line splits into a field exactly when it is a non-empty name without colon, a colon, and the value between spaces and tabs |
| Lines.FirstNamedMeaning | src/http_request.c:88-99 | the value found is v exactly when the first field of that name, in any letter case, has value v |
| Lines.RespellingKept | src/http_request.c:77-99 | spelling the names asked for or stored in any letter case changes neither the field found nor how many are counted |
| Framing.ContentLength | src/http_parser.c:122-153 | accepted exactly for a non-empty digit string whose value is at most 1 MiB, and then that value; too large exactly for digits beyond that within 64 bits, invalid otherwise |
| Framing.ParseContentLengthValue | src/http_parser.c:122-153 | the loop computes that meaning on the C string in the buffer, overflow of the 64-bit conversion included |
| Framing.ScanHeaderLines | src/http_parser.c:187-259 | the cursor loop over raw header lines equals the recursive scan |
| Framing.InspectMessageFraming | src/http_parser.c:161-259 | the whole framing pass equals its specification on every input, malformed ones included |
| Framing.ScanMeaning | src/http_parser.c:187-259 | a scan answers n exactly when the fields, cut at NUL, hold no Transfer-Encoding, at most one Content-Length, and declare n |
| Framing.ScanBlock | src/http_parser.c:187-249 | the cursor scan of a block of lines is the fold over its split fields |
| Framing.FramingMeaning | src/http_parser.c:161-259 | framing answers n if and only if every line is a field and the fields declare n as section 3.3.3 of RFC 7230 reads Content-Length |
| Parser.JudgeFieldsIs | src/http_parser.c:352-412 | the stored list is accepted exactly when all fields are good and at most 100, and is then unchanged and in order |
| Parser.HeaderLoopJudges | src/http_parser.c:474-488 | the structured line loop is judging the split fields one by one |
| Parser.SameLines | src/http_parser.c:450-488 | both passes cut the same request line and the same block of lines |
| Parser.TwoPassAgreement | src/http_parser.c:490-523 | when framing and line loop both succeed they saw the same fields, these declare the framed length, and the re-validation of Transfer-Encoding, duplicates and length never rejects |
| Parser.OnlySyntaxFails | src/http_parser.c:414-543 | on a soundly framed message the verdict depends only on the request line, field syntax and field count |
| Verdicts.TokenCharMeaning | src/http_parser.c:9-36 | a token character is exactly a visible character that is not a delimiter of section 3.2.6 of RFC 7230 |
| Verdicts.WordsVerdict | src/http_parser.c:261-350 | the verdict on any line of three words: too long, a bad token or a NUL, an unknown method, accepted for HTTP/1.0 and HTTP/1.1, unsupported for `HTTP/` with digits and dots, else bad, in this order |
| Verdicts.NoWordsVerdict | src/http_parser.c:261-350 | a line that is not three non-empty words with single spaces is too large beyond 8192 bytes and bad otherwise |
| Verdicts.FieldsVerdict | src/http_parser.c:352-412 | the first field that cannot be stored decides: malformed is a bad request, a well-formed hundred-and-first one too many; without one the fields are stored in order |
| Verdicts.SaysChunkedMeaning | src/http_parser.c:221 | a value counts as chunked exactly when it is that word in any letter case or contains it in small letters |
| Verdicts.FramingVerdict | src/http_parser.c:161-259 | over any header lines the first faulty line gives the error; without one, chunked is refused and everything else framed |
| Verdicts.ErrorsPassThrough | src/http_reader.c:17-32 | the error map of the reader changes no error the framing pass gives |
| RequestObject.HttpRequest.GetHeader | src/http_request.c:88-99 | the loop returns the first match under the NUL-terminated, case-insensitive comparison |
| RequestObject.HttpRequest.ParseHeaderLine | src/http_parser.c:352-412 | appends exactly the parsed field, or reports why and leaves the list alone |
| RequestObject.HttpRequest.ParseHeaderLines | src/http_parser.c:474-488 | the in-place loop builds the list of the specification |
| RequestObject.HttpRequest.CheckLength | src/http_parser.c:490-523 | the re-validation over stored fields |
| RequestObject.HttpRequest.Parse | src/http_parser.c:414-543 | the object holds exactly the parsed request, or is empty and the specified error is returned |
| RoundTrip.LineParses | src/http_parser.c:261-350 | a well-formed request line parses back from its text |
| RoundTrip.ParsedLine | src/http_parser.c:261-350 | every accepted request line is well-formed |
| RoundTrip.PrintParses | src/http_parser.c:414-543 | every well-formed request within the limits prints to a message that parses to that request |
| RoundTrip.ParsedIsWellFormed | src/http_parser.c:414-543 | everything the parser accepts is well-formed: no NUL or LF in names, values or target, trimmed values, at most 100 fields that declare the body length |
| RoundTrip.RequestRoundTrip | src/http_parser.c:414-543 | an accepted message, printed canonically, parses to the same request if and only if the canonical header block fits 32768 bytes |
| RoundTrip.PrintedExtracts | src/http_reader.c:83-120 | whatever follows a printed request, the reader cuts exactly that request off |
| RoundTrip.PipelinedRequests | src/http_reader.c:207-349 | any list of well-formed requests, written back to back and delivered in any pieces, is read and parsed back as that list |
| Stream.NoBodyOverflow | src/http_reader.c:109-111 | the body-overflow exits are dead |
| Stream.ReadyBounds | src/http_reader.c:83-120 | an extracted length is at least 4, at most what is buffered and at most the message limit |
| Stream.NeedIsExact | src/http_reader.c:262-277 | once the header block is buffered, the length needed is exactly the length at which the message is complete |
| Stream.ExtractStable | src/http_reader.c:83-120 | once a buffer has a verdict, no later byte changes it |
| Stream.FragmentationIndependence | src/http_reader.c:207-349 | for every split of a stream into pieces, messages and final result equal the framing function of the whole stream |
| Stream.CuttingIsPrefix | src/http_reader.c:122-139 | the messages one after another are a prefix of the stream |
| Stream.ReaderParserContract | src/http_reader.c:83-139 | every message the reader returns passes the terminator, size, framing and exact-length checks of the parser, whose verdict is then only about line syntax and count |
| Sockets.Socket.Poll | src/http_reader.c:179-205 | the oracle for poll: at most the timeout passes, exactly the timeout when it expires; expiries and failures are counted |
| Sockets.Socket.Recv | src/http_reader.c:314-337 | the oracle for recv: any non-empty piece that fits, end of file only at the end of the stream, or a failure that takes nothing; ends and failures are counted |
| Sockets.Socket.Send | src/utils.c:30-47 | the oracle for send: any prefix, or a failure that sends nothing; calls that move nothing are counted |
| Reader.RemainingIsFloor | src/http_reader.c:141-173 | for normalized times the remaining milliseconds are the floor of the true difference, zero when past, clamped beyond 1000 s |
| Reader.RemainingFits | src/http_reader.c:148-173 | waiting that long never passes the deadline, and ends less than a millisecond before it unless the wait was cut to 1000 s |
| Reader.WaitReadable | src/http_reader.c:179-205 | without interruptions the wait takes at most its timeout, and exactly that when it expires; it reports expiry only after an expired poll and failure only after a failed one |
| Reader.AwaitInput | src/http_reader.c:293-312 | without faults expiry is reported exactly at the keep-alive timeout while nothing is buffered, and less than a millisecond before the request deadline afterwards, never past it |
| Reader.HttpReader.EnsureCapacity | src/http_reader.c:51-81 | capacity grows to what is needed, never beyond the message limit and, past the first 4096 bytes, to less than twice the need; contents kept, nothing done if there is room; refusal exactly above the limit |
| Reader.HttpReader.TryExtractLength | src/http_reader.c:83-120 | the verdict on the buffer |
| Reader.HttpReader.NeededBytes | src/http_reader.c:249-277 | without a header block one more chunk, cut at the header limit, with one exactly the length of the message; the need always exceeds what is buffered and stays within the limit; the three error exits are dead |
| Reader.HttpReader.TakeMessage | src/http_reader.c:122-139 | returns the first n bytes and leaves exactly the rest at the front |
| Reader.HttpReader.MakeRoom | src/http_reader.c:279-291 | there is always room for the next recv, and for the whole message once its length is known; the full-buffer exits are dead |
| Reader.HttpReader.Absorb | src/http_reader.c:327-347 | a received piece is appended and starts the deadline of its request, or is dropped exactly when the clock fails |
| Reader.HttpReader.ReceiveMore | src/http_reader.c:293-347 | one turn conserves the unread stream, progresses, and keeps a deadline exactly while bytes are buffered; bytes are lost if and only if the clock fails before the deadline is started, and then exactly the piece received |
| Reader.HttpReader.Round | src/http_reader.c:238-348 | one turn of the loop: its result is the verdict on the whole unread stream, or the stream is kept |
| Reader.WaitEnds | src/http_reader.c:293-312 | what one undisturbed wait says about the two timeouts of the call |
| Reader.HttpReader.NextRequest | src/http_reader.c:207-349 | for every schedule: message, rejection and close are the verdict on the whole unread stream, and message and remaining bytes are that stream; a verdict already buffered is returned at once while the clock works; a close needs an end of file, an I/O error a failed poll, recv or clock, a timeout an expired wait or deadline and no verdict in the buffer; a timeout loses nothing and leaves an empty buffer exactly when no byte of the request arrived; an I/O error leaves buffer, lost bytes and unread bytes as the stream, with a loss if and only if the clock failed while nothing was buffered; it terminates, without faults within the request timeout if bytes were buffered, within the keep-alive timeout if none arrive, else within both; and an undisturbed timeout is not early: exactly the keep-alive timeout, or the last millisecond of a request timeout of at most 1000 s |
| Queue.FirstInFirstOut | src/connection_queue.c:115-181 | over every operation sequence, delivered then queued descriptors are the accepted ones in order, and the bound is kept |
| Queue.RingPush | src/connection_queue.c:140-142 | writing at the tail appends to the sequence the ring stands for, through wraparound |
| Queue.RingPop | src/connection_queue.c:174-176 | advancing the head drops the first element of that sequence |
| Queue.ConnectionQueue.constructor | src/connection_queue.c:19-57 | a new ring stands for the empty open queue of that capacity |
| Queue.ConnectionQueue.PushPass | src/connection_queue.c:99-148 | one lock-held pass of push is the push of the abstract queue, answer and state |
| Queue.ConnectionQueue.PopPass | src/connection_queue.c:150-182 | one lock-held pass of pop is the pop of the abstract queue |
| Queue.ConnectionQueue.Shutdown | src/connection_queue.c:184-198 | sets the flag and nothing else |
| Queue.ConnectionQueue.CloseLeftovers | src/connection_queue.c:64-75 | the loop of destroy closes exactly the queued descriptors, once each, in order, and marks every one of their slots empty |
| Queue.ConnectionQueue.Perform | src/connection_queue.c:99-198 | for every capacity and every operation sequence, the ring gives the answers of the abstract queue and refines it at the end |
| ProtocolProofs.PlacesStep | src/server.c:179-213 | no step of any thread loses or duplicates a connection; only accept creates one |
| ProtocolProofs.InvStep | src/connection_queue.c:99-198 | every step of accept thread, workers, signals and cleanup keeps the invariant: ring bound, owners disjoint, sleepers matched by wake-ups, drain order |
| ProtocolProofs.DescriptorConservation | src/server.c:179-249 | in every reachable state an accepted connection is in exactly one of accept thread, ring, one worker, closed; it is closed at most once, and exactly once when the server returns, with failed pushes, failed pops, leftovers in the ring and partial worker start included |
| ProtocolProofs.LeftoversNeedFailures | src/connection_queue.c:64-75 | in every run, destroy finds connections in the ring only if all workers were started and the pop of every one failed |
| ProtocolProofs.NoLostWakeups | src/connection_queue.c:115-198 | with an unsignalled sleeper, queued items are at most the woken workers yet to recheck plus the workers whose pop failed, so at most the woken ones while no pop fails; the producer sleeps only on a full queue; after shutdown nobody sleeps |
| ProtocolProofs.BrokenMeansFailed | src/thread_pool.c:20-30 | a run has a worker that left on an error exactly when one of its pops failed |
| ProtocolProofs.NoStuckWork | src/connection_queue.c:140-181 | while no pop has failed: with queued work some worker is awake, and none sleeps without another being woken |
| ProtocolProofs.ShutQueueRefuses | src/server.c:200-206 | a push on a queue that is shut down takes nothing; the connection is closed and the loop left |
| ProtocolProofs.FailedPush | src/server.c:200-209 | a push that fails at any point costs that one connection: it is closed, and the accept thread goes on unless told to stop |
| ProtocolProofs.PartialStart | src/thread_pool.c:72-82 | a worker that cannot be started leads to the shutdown of the queue and the joining of those started |
| ProtocolProofs.RestsOnlyIdle | src/connection_queue.c:99-198 | no deadlock: in every reachable state without a failed pop some thread can go on by itself, if and only if the server has neither returned nor is idle inside accept with an empty queue and all workers asleep; when idle, every accepted connection has been closed once; no time-out is needed for that |
| ProtocolProofs.GracefulDrain | src/connection_queue.c:168-181 | once any pop has reported shutdown, all pushed connections have been popped in order and no later push succeeds, failed pops of other workers included |
| ProtocolProofs.ShutdownDecreases | src/thread_pool.c:20-30 | after shutdown every step of any thread decreases the measure of queued, busy and live |
| ProtocolProofs.ShutdownProgresses | src/server.c:221-249 | after shutdown some thread can move by itself until the server has returned |
| ProtocolProofs.ShutdownTerminates | src/server.c:221-249 | no run after shutdown is longer than the measure, and a run that cannot go on has returned with every connection closed once |
| ProtocolProofs.AbortDecreases | src/server.c:179-213 | once the abort flag is set, each step of the accept thread decreases its rank and no other step raises it |
| ProtocolProofs.AbortLeadsToShutdown | src/server.c:179-213 | in every run after the abort flag is set, the accept thread takes at most its rank of steps before the shutdown, at most 5 once the workers are started; until then it can take one of its own, asleep on a full queue included, if and only if it is not inside accept |
| ProtocolProofs.SignalMissed | src/server.c:179-184 | from every loop head a signal behind the test of the flag leaves the accept thread in accept with the flag set, where only a return of accept moves it on |
| ProtocolProofs.StopsForAReason | src/connection_queue.c:99-148 | in every run a push that reports shutdown, the end of the accept loop and the shutdown itself each need the abort flag or a failed worker start; on a full queue without the flag a push goes to sleep and nothing else |
| ProtocolProofs.OnlyWorkersClose | src/server.c:179-213 | in every run without abort, failed worker start and failed push, the accept thread stays in its loop and every connection taken from the ring is owned by one worker or closed, and no other is closed |
| Accounting.ActiveAccounting | src/server_stats.c:52-70 | in every run the counter is starts minus ends plus ends at zero, and is exact if and only if each end finds an uncancelled start |
| Accounting.NoDriftWhenOrdered | src/server.c:200-212 | if each start is counted before its end, the counter never drifts |
| Accounting.MeaningOfActive | src/server_stats.c:52-70 | the counter is the number of connections in flight if and only if the run was balanced and destroy closed no leftover |
| ProtocolExamples.DriftExample | src/server.c:200-212 | a run that ends idle with the counter at one |
| ProtocolExamples.LeftoverExample | src/connection_queue.c:64-75 | a run in which the only pop fails, a connection is pushed all the same, and destroy finds it in the ring and closes it |
| ProtocolExamples.LostWakeupExample | src/connection_queue.c:160-166 | a run in which a failed wait takes the signal with it: work queued, the other worker asleep, nobody woken |
| Responses.OneContentLength | src/http_response.c:340-396 | every well-built response carries exactly one Content-Length and no Transfer-Encoding, and its digits read back to the body length |
| Responses.StatusReadBack | src/http_response.c:321-328 | the digits of the status stand where a client that counts columns reads them |
| Responses.StatusLineBack | src/http_response.c:321-328 | split at its first two spaces, the status line gives back HTTP/1.1, the status and the reason of every response |
| Responses.ServerNamed | src/http_response.c:337-343 | the client finds the response's own Server field or, if it has none, CinderHTTP/1.0, once; the response's own fields come first |
| Responses.HeadFound | src/http_response.c:366-410 | the first CRLFCRLF of the wire is the end of the header block, whose lines split back into exactly the fields of the response |
| Responses.WireDecodes | src/http_response.c:516-555 | whatever follows, the reference client cuts a complete response off at its last byte |
| Responses.TruncationDetected | src/http_response.c:516-555 | no proper prefix of what the response declares is taken for a response |
| Responses.DecodeStable | src/http_response.c:516-555 | bytes behind a decoded response do not change it |
| ResponseStream.StreamDecodes | src/client_handler.c:217-382 | complete responses followed by one truncated response decode to exactly those and leave the truncated bytes |
| ResponseStream.WholeStreamDecodes | src/client_handler.c:217-382 | complete responses decode to exactly those, with nothing left |
| Serializer.Measure | src/http_response.c:345-359 | the first pass computes the length of the header block |
| Serializer.Fill | src/http_response.c:366-399 | the second pass writes the header block and ends exactly at that length |
| Serializer.SerializeHeaders | src/http_response.c:313-410 | the header block with a NUL behind it that does not count, or a failure exactly when a line buffer is too small; the length-mismatch exit is dead |
| Serializer.BuffersFitMeaning | src/http_response.c:320-335 | a line buffer is too small exactly when the line, its CRLF and a NUL exceed 128 bytes for the status, 64 for the length |
| Serializer.WellBuiltSerializes | src/http_response.c:321-335 | no response a handler can build is too long for the line buffers |
| Transfer.SendAll | src/utils.c:11-50 | success exactly when all bytes went out, in order; otherwise a proper prefix, and some send failed or moved nothing |
| Transfer.SendFileLoop | src/http_response.c:456-489 | the sendfile loop sends a prefix of the file once and asks for the fallback only when nothing was sent |
| Transfer.ReadSendLoop | src/http_response.c:491-513 | the read-and-send loop sends a prefix of the file, all of it exactly on success |
| Transfer.SendFileBody | src/http_response.c:451-514 | for every schedule, success means exactly the first `length` bytes in order without gap or repeat, failure a proper prefix and a call that failed or moved nothing |
| Transfer.SendResponse | src/http_response.c:516-555 | success means the whole response, failure a prefix shorter than declared and, if the line buffers suffice, a failed call |
| Persistence.HasTokenStep | src/http_connection.c:26-58 | a comma list has a token exactly when its first element or the rest has it |
| Persistence.SkipOws | src/http_connection.c:33-35 | skipping leading blanks keeps whether the list has the token |
| Persistence.DropOws | src/http_connection.c:44-47 | the loop from the end trims the element |
| Persistence.ListFrom | src/http_connection.c:40-55 | a list from an element on has the token exactly when that element is it or the rest behind the comma has it |
| Persistence.HeaderValueHasToken | src/http_connection.c:26-58 | the scanner is split on commas, trim, compare without case |
| Persistence.ConnectionSplits | src/http_request.c:93-97 | a token in some Connection field is in the first one, which is read, or in a later one, which is not |
| Persistence.FirstFieldDecides | src/http_connection.c:60-81 | the decision from the first Connection field equals the one from all of them if and only if no later field holds, alone, a close that would end the connection or a keep-alive that would hold it |
| Persistence.OneFieldIsEnough | src/http_request.c:93-97 | with at most one Connection field they always agree |
| Persistence.SwapRemove | src/http_response.c:170-174 | moving the last element into the hole removes exactly the element there |
| ResponseObject.HttpResponse.AddHeader | src/http_response.c:132-158 | appends the field, cut at NUL |
| ResponseObject.HttpResponse.RemoveHeader | src/http_response.c:160-181 | no field of that name remains and every other field occurs as often as before |
| ResponseObject.HttpResponse.SetHeader | src/http_response.c:183-189 | exactly one field of that name remains, with the new value, and every other field occurs as often as before |
| ResponseObject.HttpResponse.ApplyConnectionPolicy | src/http_connection.c:83-103 | the serialized fields say close exactly when the connection will not persist, whatever Connection fields the handler left, and all other fields are kept; HTTP/1.0 gets keep-alive, HTTP/1.1 no Connection field |
| UrlDecode.PathPartUnique | src/static_files.c:45-62 | there is exactly one prefix in front of the query and the fragment |
| UrlDecode.ExtractPath | src/static_files.c:64-85 | that prefix, or a bad target exactly without a leading slash |
| UrlDecode.DecodeUrl | src/static_files.c:91-131 | the buffer-filling loop computes the decoding, or reports a bad target exactly where there is none |
| UrlDecode.DecodeMeaning | src/static_files.c:91-131 | a text decodes to v if and only if it is a sequence of plain bytes and of `%` with the two digits of a non-zero byte, in either letter case, standing for the bytes of v |
| UrlDecode.EscapeMeaning | src/static_files.c:24-43 | `%` and two bytes decode to b exactly when the bytes stand at positions i and j among the digits 0-9a-f or 0-9A-F, 16i+j is b, and b is not zero |
| UrlDecode.UrlRoundTrip | src/static_files.c:87-90 | every NUL-free string, with any set of bytes escaped that includes the percent sign and the letter case of every digit chosen freely, decodes back to itself; nothing is decoded twice |
| StaticPath.JoinSegments | src/static_files.c:201-236 | measuring and filling agree; the result is the segments joined by slashes, with a NUL behind them |
| StaticPath.NormalizePath | src/static_files.c:141-239 | the segment-stack loop computes the fold over the segments, BAD_TARGET and FORBIDDEN included |
| StaticPath.FoldDepth | src/static_files.c:166-176 | the stack underflows exactly when some prefix has more `..` than ordinary segments; otherwise its height is the difference |
| StaticPath.FoldSurvivors | src/static_files.c:158-199 | the stack holds exactly the names that, reading from the right, no later `..` cancels |
| StaticPath.NormalizeMeaning | src/static_files.c:141-239 | the result is the join of the surviving names, free of empty, `.` and `..` segments, and a fixpoint of normalizing; FORBIDDEN exactly on escape |
| StaticPath.WithinIsComponentPrefix | src/static_files.c:245-258 | on canonical paths the byte test is the component-prefix relation if and only if the root is not `/` or the path is the root itself |
| StaticPath.RootRefusesAll | src/static_files.c:245-258 | with root `/` every path below it is refused |
| StaticPath.JoinedIsWithin | src/static_files.c:260-272 | joining gives the canonical path of both component lists, or BAD_TARGET exactly from 4096 bytes on, and passes the boundary check |
| StaticPath.ResolveTarget | src/static_files.c:456-469 | extract, decode and normalize in sequence, with their errors |
| StaticPath.RelativeErrors | src/static_files.c:456-469 | a target is bad exactly without a leading slash or with a broken escape, and forbidden exactly when its decoded path climbs above the root |
| StaticPath.PathPipeline | src/static_files.c:45-272 | every accepted target gives a joined list of names, a fixpoint, which joined to any canonical root but `/` lies inside it |
| Dispatch.StatusesTell | src/client_handler.c:21-61 | each error but the three that mean 400 has a status of its own, and reader and parser agree on the errors they share |
| Dispatch.ClosingStatuses | src/client_handler.c:106-123 | a status closes the connection exactly when it answers a timeout, a failure of the server, or any error but an unsupported method |
| Dispatch.FileStatusesTell | src/client_handler.c:63-80 | each answer of the file system has a status of its own, and the connection ends exactly for an unusable target, an oversized file and a failure |
| Dispatch.EchoTypeMeaning | src/router.c:101-107 | an echo names the first Content-Type of the request, or the octet-stream type when that is empty or missing |
| Dispatch.BeforeQueryMeaning | src/router.c:17-38 | the path compared is the target itself or what stands before its first question mark |
| Dispatch.ApiTargetMeaning | src/router.c:40-59 | the API is exactly `/api` and everything below `/api/`, whatever the query |
| Dispatch.AllowIsTrue | src/router.c:143-177 | a method is listed in the Allow field of a route exactly when that route answers it 200 rather than 405 |
| Dispatch.BuildError | src/client_handler.c:125-144 | a response of that status, from the page or the plain text, or none after both failed |
| Dispatch.EchoWellBuilt | src/router.c:86-109 | echoing any accepted request gives a well-built response, whatever Content-Type it copies |
| Dispatch.ServeFile | src/client_handler.c:161-173 | a bad target is answered 400 and a climbing one 403 before any file is looked at; otherwise the file system is asked for exactly the resolved path and its answer fixes the status, or 500 if a file found could not be sent; the response is the page built; no response only after two failures |
| Dispatch.RouteApi | src/router.c:192-231 | known path and method: the handler's 200; known path, other method: 405 with the Allow field of that path; other path: 404; 500 only if a handler failed, no response only after two failures; a 200 echo carries the request's body and its Content-Type, any other answer is the page built |
| Dispatch.Route | src/client_handler.c:303-331 | the branch taken and the work of the handlers fix the status and the response; other methods on static targets get 405; no response only after two failures |
| ClientHandler.KeepAliveWish | src/http_connection.c:60-81 | the decision read off the parsed object is the one of the specification |
| ClientHandler.AnswerMessage | src/client_handler.c:286-336 | a framed message gets the status its parse result or its dispatch calls for, body omitted exactly for HEAD, and persists exactly on the client's wish and a status that allows it; no answer only after two failures |
| ClientHandler.AnswersStill | src/http_connection.c:83-103 | editing the Connection fields does not change what a response answers: status, reason, body and all other fields stay |
| ClientHandler.Deliver | src/client_handler.c:338-372 | the policy is applied and the answer sent: whole and consistent with the decision to go on, or cut after a failed send |
| ClientHandler.ServeOne | src/client_handler.c:338-382 | a turn sends a complete answer that says close exactly when the connection will end and tells a persisting HTTP/1.0 client keep-alive; a detectable prefix of one only if a send failed; nothing only if building the response failed twice |
| ClientHandler.TakeNext | src/client_handler.c:217-231 | the message read is the next one of the stream's framing |
| ClientHandler.TakeRefusal | src/client_handler.c:275-284 | a rejection comes exactly behind the last message of the framing, with its reason |
| ClientHandler.ReadTurn | src/client_handler.c:229-284 | a timeout with nothing of a request received is silent, any other is answered; every exit and every timeout has its cause in a failed or expired call |
| ClientHandler.Respond | src/client_handler.c:286-382 | a read that is to be answered either keeps the loop invariant, with the answer logged and sent, or ends the loop with its cause |
| ClientHandler.ClientHandle | src/client_handler.c:198-387 | for every run: the k-th answer answers the k-th framed request; the output is the complete answers in order and at most one cut one, itself the answer to the next request; the loop goes on exactly after a whole answer without close; at most 100 answers; a peer found closed has had every framed request answered; a 408, whole or cut, exactly for a request begun; and each way to end has its cause: an unanswered read two failed builds, a cut answer a failed send, a broken read a failed poll, recv or clock, a close the end of the stream, an idle timeout its full time |
| Conversation.ClientSees | src/http_response.c:366-396 | the fields a client splits out of the reply's bytes say close exactly when the response object does |
| Conversation.ConnectionDecodes | src/client_handler.c:217-382 | for every run, given which bodies the server left out, Content-Length framing of the output gives back exactly the answers sent whole and leaves the cut one |
| Conversation.TokenIsMethod | src/client_handler.c:300 | for a request that parses, the body is left out exactly when the message starts with the token HEAD |
| Conversation.ClientDecodes | src/client_handler.c:286-300 | for every run, with the flags the client knows from what it wrote, the output decodes to the answers sent and the cut one if and only if no HEAD request without a parse was answered with a body, or cut behind its header block |
| Conversation.OthersDecode | src/client_handler.c:286-382 | in every run, only the last answer can be misread: all others, and all whose request parsed, decode right with the client's flags |
| Conversation.PersistenceAgreement | src/client_handler.c:338-380 | for every run, a decoded reply says close if and only if it is the last one of a connection the server ends; the hundredth always does |
| Conversation.EchoAnswered | src/router.c:86-109 | in every run a whole 200 answer to an echo request carries exactly the body sent |
| Conversation.EchoConversation | src/client_handler.c:217-382 | end to end: for any echo requests printed back to back and any schedule, the i-th body the client decodes from the output, with the flags it knows, is the i-th body it sent, wherever the status is 200 |
| Conversation.EveryReadAnswered | src/client_handler.c:229-382 | in every run with at most one failed build nothing goes unanswered, and a timeout with a request begun is answered 408, whole or cut |
| Conversation.UntroubledRun | src/client_handler.c:217-382 | a run in which no call fails ends by policy, because the peer closed, or idle |
| Conversation.EchoSucceeds | src/router.c:192-231 | in every run an echo request is answered 200 unless a handler failed |
| Conversation.EchoComplete | src/client_handler.c:217-382 | if no build fails and the peer is found closed, the client has got exactly one reply per echo request it wrote, in order, each with its own body |
| Conversation.ClimbingIsForbidden | src/client_handler.c:161-173 | in every run a static request that climbs above the root is answered 403 |
| Deviations.HeadRefused | src/http_parser.c:261-350 | HEAD with any HTTP version but 1.0 and 1.1 is framed and returned by the reader and refused by the parser |
| Deviations.HeadHttp2 | src/client_handler.c:286-300 | `HEAD / HTTP/2.0` is such a request |
| Deviations.HeadAlwaysMisled | src/client_handler.c:286-300 | every run on such a request that answers it sends exactly one answer, a 505 whose body is not left out, and ends the connection; the client is misled if and only if the body is not empty |
| Deviations.HeadGetsBody | src/client_handler.c:286-300 | what the client makes of it: the header block for the whole answer, with the body left over |
| Deviations.SecondCloseIgnored | src/http_connection.c:60-81 | for every HTTP/1.1 request line there is a request the parser accepts whose close in a second Connection field is overlooked |
| Deviations.SecondCloseKept | src/client_handler.c:333-380 | and its connection is kept open in every run where the status allows it |
| Wording.Punctuation | src/http_parser.c:95-120 | the separators are the characters they are named after |
| Wording.FieldNames | src/http_parser.c:218-228 | the field names spell as the code writes them |
| Wording.FieldWords | src/http_response.c:337-338 | the field values spell as the code writes them |
| Wording.LineWords | src/http_parser.c:38-53 | the methods and versions spell as the code writes them |
| Wording.Paths | src/router.c:135-139 | the routes spell as the table writes them |
| Wording.Limits | include/http_limits.h:13-32 | the limits have the values configured |

## Left out

- Allocation failure: the OUT_OF_MEMORY results of reader, parser and static files, and a failing header append in the connection policy.
- Errors of pthread calls other than a failed worker start and failing locks and waits in push and pop.
- Socket setup, signal handlers, poll event bits and errno values beyond the cases the code distinguishes.
- `realpath`, `stat`, `open`, symlinks and index lookup: what the file system answers is arbitrary here; the boundary check is proved for every canonical path it may return.
- The bodies of health, stats and error pages, MIME types and reason phrases: tables and text; these handlers enter only through their status and what a response must satisfy.
- The request and response counters of the statistics, configuration, logging and `main`.
- Overflow of `keep_alive_timeout_sec * 1000` and of size computations outside the limits the code checks.
- Interruptions without end: the interruptions of one connection are finite, though arbitrarily many.
- The growth of the segment and header arrays: both are sequences, so only their contents are modelled.
- Library searches and blank skipping inside one header line (`memchr`, `skip_ows`, `trim_ows_end`) are functions, not loops.
- Dispatch.ServeFile: what the file system answers and the bytes of the file sent are left open.
- Dispatch.RouteApi: the JSON bodies of health, stats and error answers are left open; only status, Allow and the echo are stated.
- Reader.HttpReader.NextRequest: the lower bound for a request timeout is stated up to 1000 s, where the code cuts its waits; configured values end at 300 s.
- The connection protocol uses the abstract queue; that the ring refines it is what the contracts of `Queue.ConnectionQueue` state.
