# PAM verification

PAM is a persistent PHP runtime. One master process supervises generations of workers. Each
worker keeps one PHP process alive and serves many requests from it with Fibers. This
project models the parts where that is delicate and proves what they must keep:

- **Dispatcher**, **ResponseCodec**: suspended HTTP requests that share one set of superglobals,
  one header bag and one status, and the binary form in which a response leaves PHP.
- **Resp**, **RedisClient**: RESP2 replies and the client that reads them from a connection that
  may cut, stall, fail or close at any point.
- **NatsFrames**, **ChunkedBody**: the two other incremental parsers.
- **Broadcast**: WebSocket nodes that share an append-only stream.
- **Scheduler**, **Channels**, **Admission**, **RequestScope**: futures, channels, mutexes,
  bounded pools and request cleanup under every cooperative interleaving.
- **Supervisor**, **StartupStats**, **Metrics**: worker generations, restart, start-up percentiles
  and the aggregation of worker metrics.
- **PngRows**: the PNG row decoder of the visual-evidence script.
- **Text**: lines, decimal integers and other shared text facts.

## How it is built

Code that updates fields in place is a class. Each of its methods is proved equal to one step
of a function on values (`View() == Step(old(View()), action)`), or to a reading or writing
function on the bytes involved. The lemmas then speak about every sequence of steps. Where
the source yields only at `delay` or at a `Suspension`, a run is any sequence of such steps, so
every interleaving is covered.

User code is arbitrary. A request's Fiber is any function from what it has seen so far to what
it does next. The network is arbitrary too: any chunking, any failure, any delay. What it will do is a
field or a parameter, so that a contract can say what a call returns when the network delivers.

### Assumptions

- A Fiber suspends only with a `Suspension` value. Sessions and the Laravel mode that preserves
  output buffers are not used, and a dispatch does not start another dispatch from inside.
- The environment is clear when the worker starts.
- One Fiber at a time uses a Redis client, the server sends one reply per command and
  connection, and each network operation takes some of the call's time.
- Only the Fiber that began a request scope, or one of its cleanups, finishes it. A Future's
  Fiber inherits the scope through its context and could finish it too.
- The runs of the dispatcher hold HTTP calls only. WebSocket callbacks in between would share
  the superglobals, which nothing clears behind them; they are taken to leave them empty.
- Room, socket and header names are not numeric strings. Broadcasts are emitted inside WebSocket
  callbacks. The stream is not trimmed, nodes connected at the same time have
  distinct identifiers, and publishing succeeds. One Fiber at a time polls an adapter.
- Strings hold one character per byte. JSON decoding, the NATS length field and readiness
  probes are arbitrary functions.

### Where the code and its intent part

Each of these comes with the exact condition under which the code does what it should.

- A Redis line of exactly `maxResponseBytes` is refused when its CR and LF come in different
  reads (`RedisClient.LineIsReadExactlyWhen`).
- Adding a content type to a response that already has 65535 headers throws out of the
  dispatcher. The request then stays in the table until it is cancelled, and its headers and
  status stay until the next native begin or resume; other requests do not see them
  (`ResponseCodec.MergeMeaning`, `Dispatcher.EscapesExactlyWhen`, `Dispatcher.EscapeLeaves`).
- A NATS message is lost, although it is within the message limit, when the poll that completes
  it brings along so much traffic behind it that the buffer passes the receive limit. Which
  streams are safe however they are polled is stated by `NatsFrames.AlwaysDeliveredExactlyWhen`.
- A Future that is cancelled while its own Fiber has control ends as that Fiber ends
  (`Scheduler.TerminalChangesExactlyWhen`, `Scheduler.SelfCancelIsOverwritten`).
- A superglobal that a request replaced by something other than an array comes back empty
  (`Dispatcher.RestoreIsExact`).
- A cleanup that calls `RequestScope::finish()` closes its scope twice
  (`RequestScope.CountStaysExactlyWhen`, `RequestScope.CountBreaksExactlyWhen`,
  `RequestScope.ReportsExactlyWhen`).
- A worker whose lag total is read before its sample count can lift the mean lag above every
  worker's own mean (`Metrics.MeanLagAtMostExactlyWhen`, `Metrics.UncountedLagLiftsTheMean`).
- A channel of capacity 0 is unbounded in the code; the model follows the code. A null that is
  sent cannot be told from the null that a closed, empty channel answers with.

## Model

| member | source | states |
|---|---|---|
| Dispatcher.NonInterference | runtime/bootstrap.php:1203-1348 | Over every interleaving of begin, resume and cancel from the start, exceptions that leave the dispatcher included, one request's replies, and the environment it sees at each turn, are those of a run with only its own calls, and the superglobals are clear at the end. |
| Dispatcher.InterleavingIsSolo | runtime/bootstrap.php:887-962 | The same from any two states with clear superglobals that agree on this request, whatever other requests are pending and whatever an escape left in header bag and status. |
| Dispatcher.HistoriesAreFaithful | runtime/bootstrap.php:1208-1280 | In every reachable state each request in the table saw, at each turn, what its turn before left, and its collected output is only its own; it is suspended with exactly that saved, or it returned a response its output could not be merged into. |
| Dispatcher.ReplyMeans | runtime/bootstrap.php:1253-1287 | What a call answers: for a Fiber that returns an in-range response, the magic bytes and a payload that decodes to that status, those headers in order and those chunks, with everything the request ever printed as the body when it had none, and a text content type added when there was none; for one that throws, a payload that decodes to status 500; for one that suspends, its operation. |
| Dispatcher.ControlIsPassed | runtime/bootstrap.php:887-962 | From every reachable state: a begin runs a new identifier in a clear environment, a resume hands a waiting Fiber exactly the given value, a cancel interrupts it, and it finds what it left; every other call runs nothing and is answered with a rejection, or with whether there was something to drop. |
| Dispatcher.RoomyRunsStaySuspended | runtime/bootstrap.php:1253-1286 | When every response has a content type or room for one, all entries are suspended between calls and the whole environment is clear. |
| Dispatcher.RoomyScriptsNeverEscape | runtime/bootstrap.php:1277-1286 | Then no exception leaves the dispatcher in any run. |
| Dispatcher.EnvironmentIsClear | runtime/bootstrap.php:1336-1348 | Until an exception escapes, superglobals, header bag and status are clear between calls. |
| Dispatcher.ServeIsLocal | runtime/bootstrap.php:1203-1287 | A call changes no other request's entry and leaves the superglobals clear, and header bag and status too unless it escaped or cancelled nothing. |
| Dispatcher.ServeDependsOnOwnEntry | runtime/bootstrap.php:1203-1287 | What a call does depends neither on any other request's entry nor on the headers and status it finds. |
| Dispatcher.RestoreIsExact | runtime/bootstrap.php:1289-1334 | Restoring a captured environment gives it back if and only if every superglobal is an array; one that is not comes back empty, and nothing else changes. |
| Dispatcher.EscapesExactlyWhen | runtime/bootstrap.php:1277-1286 | For a request that returns an in-range response, an exception escapes the call if and only if captured output has to be merged into a response with 65535 headers and no content type. |
| Dispatcher.EscapeLeaves | runtime/bootstrap.php:1277-1286 | After an escape, in a begin, a resume or a cancel, the superglobals are clear, no other entry has changed, and the identifier can neither begin nor resume until a cancel frees it; its headers and status are left: the next request through a native entry point begins in a clear environment, one begun inside PHP finds them. |
| Dispatcher.CrowdedEscapes | runtime/bootstrap.php:1279-1280 | Such a request exists: it prints and returns 65535 distinct headers without a content type. |
| Dispatcher.DispatchesAreConserved | runtime/bootstrap.php:895-961 | Over every run, escapes included, the table holds exactly the identifiers begun and not ended, and live plus completed grows by exactly the number begun. |
| Dispatcher.StepConserves | runtime/bootstrap.php:1253-1286 | Each call keeps that balance, also when a cancelled Fiber catches the interruption and suspends again. |
| Dispatcher.Runtime.AdvanceHttpDispatch | runtime/bootstrap.php:1203-1287 | The method on fields does one step of the machine above, whose replies are those of Dispatcher.ReplyMeans, and leaves outer output buffers alone. |
| Dispatcher.Runtime.RunFiber | runtime/bootstrap.php:1208-1250 | The Fiber gets its restored environment, exactly its own new output is added to what was collected before, and a Fiber that returns leaves empty superglobals. |
| Dispatcher.Runtime.CollectOutput | runtime/bootstrap.php:1239-1250 | Closing nested buffers down to a level yields their concatenation, outermost first, whatever their number. |
| Dispatcher.Runtime.RestoreHttpEnvironment | runtime/bootstrap.php:1312-1334 | Sets the whole environment to the restored form of the saved one. |
| Dispatcher.Runtime.ClearHttpEnvironment | runtime/bootstrap.php:1336-1348 | Leaves nothing of the environment it found. |
| Dispatcher.Runtime.BeginHttpDispatch | runtime/bootstrap.php:887-923 | One Begin step: live or empty identifiers are rejected with nothing changed. |
| Dispatcher.Runtime.ResumeHttpDispatch | runtime/bootstrap.php:925-941 | One Resume step: unknown or unsuspended identifiers are rejected with nothing changed. |
| Dispatcher.Runtime.CancelHttpDispatch | runtime/bootstrap.php:943-962 | One Cancel step: the Fiber is interrupted and may finish, fail or suspend again. |
| Dispatcher.Runtime.ServeBegin | native/pam_php.c:608-637 | The native begin: a Begin step from a clear header bag and status. |
| Dispatcher.Runtime.ServeResume | native/pam_php.c:676-701 | The native resume: a Resume step from a clear header bag and status. |
| ResponseCodec.RoundTrip | runtime/bootstrap.php:1367-1437 | Decoding the encoding of an in-range response, followed by anything, gives the response and leaves exactly what followed. |
| ResponseCodec.StrictPrefixRejected | runtime/bootstrap.php:1400-1407 | Every strict prefix of an encoding is rejected. |
| ResponseCodec.PackMeans | runtime/bootstrap.php:1371-1393 | Every 16-bit and 32-bit field has its most significant byte first. |
| ResponseCodec.LayoutImage | runtime/bootstrap.php:1367-1394 | The sections of the format and their order, byte by byte, on a response that has all of them. |
| ResponseCodec.MergeMeaning | runtime/bootstrap.php:1350-1364 | Merging changes only an empty body and a missing content type, which becomes "text/plain; charset=utf-8"; the merged payload decodes to exactly that response, and merging throws if and only if that would be the 65536th header. |
| ResponseCodec.EachReadsBack | runtime/bootstrap.php:1421-1435 | Any counted list of items that read back does so itself, with anything after it. |
| ResponseCodec.EachNeedsAll | runtime/bootstrap.php:1421-1435 | No strict prefix of such a list can be read. |
| ResponseCodec.PutAllAppends | runtime/bootstrap.php:1419-1429 | Storing headers in a keyed array keeps all of them in order when their names are distinct. |
| ResponseCodec.AppendHeaders | runtime/bootstrap.php:1376-1387 | The header loop appends exactly the headers' encoding, and refuses if and only if a name or a value count does not fit 16 bits. |
| ResponseCodec.EncodeHttpResponse | runtime/bootstrap.php:1367-1394 | The loops produce the encoding that reads back, or the same refusal. |
| ResponseCodec.DecodeHttpResponse | runtime/bootstrap.php:1397-1437 | The offset-driven reader accepts exactly what the decoder on values accepts, with the same response. |
| ResponseCodec.Cursor.Take | runtime/bootstrap.php:1400-1407 | Advances by exactly the bytes it returns, or reports truncation. |
| ResponseCodec.Cursor.Headers | runtime/bootstrap.php:1419-1429 | Reads the counted headers from the offset on, a later one replacing an earlier one of the same name. |
| Resp.ReadWire | runtime/redis.php:183-230 | Reading a reply's bytes, with any bytes after them, gives the reply's meaning and leaves exactly those bytes if and only if the reply fits the limits up to its first error, and is refused otherwise. |
| Resp.ReadFlatWire | runtime/redis.php:183-213 | The same for a reply that is not an array, where only its own length counts. |
| Resp.MeaningIsDenoted | runtime/redis.php:183-230 | The meaning of a reply is the value it denotes, arrays item by item at any depth, if and only if there is no error in it, and otherwise fails with the first error in the order of the bytes. |
| Resp.WireImages | runtime/redis.php:183-213 | The wire form of one reply of each kind, spelled out, which the reading above inverts. |
| Resp.ArrayImage | runtime/redis.php:216-230 | The wire form of an array, spelled out. |
| Resp.ReadExtends | runtime/redis.php:183-253 | A reading that has ended, in a value, an error or a refusal, is not changed by any bytes that follow. |
| Resp.ReadOfPrefix | runtime/redis.php:183-253 | A value read from any prefix of what the server sends is that of the whole first reply, with exactly its bytes consumed; an error reported is that reply's error. |
| Resp.ReadMonotone | runtime/redis.php:232-253 | Raising the limits never changes a value or an error that was read. |
| Resp.CommandRoundTrip | runtime/redis.php:273-284 | Parsing an encoded command gives back its arguments, in order. |
| Resp.Encode | runtime/redis.php:273-284 | The loop produces the wire form that parses back, and refuses if and only if an argument is over 512 MiB. |
| RedisClient.Client.Command | runtime/redis.php:75-94 | Whatever came before, a call that succeeds returns the meaning of the server's reply to this command, and one that reports a server error reports the text of that reply; when the connection stands, or can be opened with an accepted handshake, and the reply comes whole, in time and within the limits, the call does one of the two. Every call leaves no connection, or an idle one with an empty buffer; every failure drops the connection and every success keeps it. |
| RedisClient.Client.Pipeline | runtime/redis.php:100-130 | The same for n commands: n replies, in order, each to its own command, or the text of the first one that is an error, and one of the two when the replies come whole, in time and within the limits. No command gives no value; one that cannot be sent changes nothing. |
| RedisClient.Client.Deliver | runtime/redis.php:112-129 | Connection, write and replies of one batch, with the connection dropped on every failure. |
| RedisClient.Client.Converse | runtime/redis.php:83-89 | One write followed by one reply per command: what is read belongs to exactly these commands, and nothing is lost when the answer comes whole and in time. |
| RedisClient.Client.Write | runtime/redis.php:83-88 | Writes nothing after the deadline; an answer that arrives is put behind what is on its way, and the exchange is on record. |
| RedisClient.Client.ReadReplies | runtime/redis.php:121-125 | Reads one value per reply and consumes exactly the replies, up to the first error; replies within the limits arrive however their bytes are cut. |
| RedisClient.Client.ReadValue | runtime/redis.php:183-197 | What is read from buffer and socket is a function of the bytes alone, not of how they were cut into reads. |
| RedisClient.Client.ReadArray | runtime/redis.php:216-230 | The counted loop reads exactly the items, in order, to the same depth limit. |
| RedisClient.Client.ReadBulkValue | runtime/redis.php:199-213 | Reads length, bytes and terminator from any chunking, with null for a length of -1. |
| RedisClient.Client.ReadLine | runtime/redis.php:232-243 | Returns the first line and leaves what follows it; given time, it behaves as the line reader whose limit is stated exactly below. |
| RedisClient.Client.ReadExact | runtime/redis.php:245-253 | Returns exactly the next bytes and keeps the rest. |
| RedisClient.Client.Fill | runtime/redis.php:255-270 | Moves one read into the buffer without losing or reordering a byte, and only while the buffer is within the limit. |
| RedisClient.Client.Connection | runtime/redis.php:147-181 | Keeps a live connection as it is, or opens an idle one on which exactly AUTH and SELECT, as configured, were exchanged and each was answered with OK; does so whenever the server can be reached and answers them in time. |
| RedisClient.Client.Introduce | runtime/redis.php:158-179 | The handshake on a new connection succeeds when every command of it is answered with OK in time, and uses exactly those answers and that time. |
| RedisClient.LineIsReadExactlyWhen | runtime/redis.php:232-270 | From a given cut into reads a line is read back if and only if it is shorter than the configured maximum, or has exactly that length and no read ends between its CR and its LF. |
| RedisClient.LineSurvivesEveryCut | runtime/redis.php:232-270 | So from every cut into reads of at most 64 KiB if and only if it is shorter than the maximum. |
| RedisClient.EncodeAll | runtime/redis.php:100-111 | The pipeline's payload is the commands' wire forms in order, refused if and only if one of them is empty or over the limit. |
| NatsFrames.ParseExtends | runtime/ws.php:398-438 | Parsing a buffer with more bytes is the messages found before followed by the parse of the remainder with those bytes; a failure stays a failure. |
| NatsFrames.EveryChunkingIsTheSame | runtime/ws.php:375-438 | However a stream, valid or not, is cut into reads and polls, the polls give the messages, PONGs and remainder of one parse of everything; one of them throws if and only if that parse does or some poll takes what was left over plus its reads past the receive limit. |
| NatsFrames.ParseOfWire | runtime/ws.php:398-438 | Valid frames parse to exactly their messages in order, with one PONG per PING and nothing left over. |
| NatsFrames.FrameIsRead | runtime/ws.php:398-438 | What one frame adds to the parse of any bytes behind it: a PING is answered once, a message is handed on first, and any other line that is not an error is passed over. |
| NatsFrames.Delivery | runtime/ws.php:375-438 | For valid frames: every message is delivered once, in order, if and only if no poll passes the receive limit. |
| NatsFrames.AlwaysDeliveredExactlyWhen | runtime/ws.php:375-438 | A stream of valid frames is delivered by every way of polling it if and only if no frame, with what one poll of 128 reads of 8 KiB can bring along behind it, passes the receive limit. |
| NatsFrames.BurstIsLost | runtime/ws.php:381-390 | For a frame that does, polls exist that lose it. |
| NatsFrames.LimitsOnFrames | runtime/ws.php:388-390 | A message of the maximum size with 64 KiB behind it makes a stream one that can be lost; frames that leave room for a full poll make one that cannot. |
| NatsFrames.LeftoverIsPartOfAFrame | runtime/ws.php:398-425 | Any beginning of a valid stream is some whole frames and less than one more, which is exactly what is left over. |
| NatsFrames.ParseIsComplete | runtime/ws.php:398-438 | The parse stops only where no complete frame is left. |
| NatsFrames.NextFrameIsSound | runtime/ws.php:398-438 | Whatever is taken off the buffer as a frame is the wire form of a valid frame, and whatever breaks the loop is a fault. |
| NatsFrames.FailsExactlyAtFaults | runtime/ws.php:398-438 | Parsing throws if and only if the buffer is valid frames followed by a fault: an error line, a message with a negative length or one over the limit, with something else than CRLF behind its payload, or with malformed JSON. |
| NatsFrames.NatsAdapter.ParseFrames | runtime/ws.php:398-438 | The buffer-cutting loop ends on every input and computes that parse. |
| NatsFrames.NatsAdapter.ReadAvailable | runtime/ws.php:375-395 | Appends the readable chunks in order, at most 128, and succeeds if and only if the buffer stays within the limit, or nothing came and the connection is open. |
| NatsFrames.NatsAdapter.Poll | runtime/ws.php:264-273 | One attempt of a poll is one step of the polling above, and leaves an empty buffer when it throws. |
| ChunkedBody.DecodesExactlyTheCodings | runtime/http_client.php:298-325 | A body decodes to some data if and only if it is a chunked coding of that data: non-empty chunks with sizes in any hex case and leading zeros, extensions after the size, a last chunk, and then anything. Section 7.1 of RFC 9112 is narrower: it asks for trailer fields and a CRLF at the end. |
| ChunkedBody.DecodeOfBody | runtime/http_client.php:298-325 | Every valid coding decodes to the concatenation of its chunks. |
| ChunkedBody.ChunkIsRead | runtime/http_client.php:301-323 | A size line, that many bytes and a line end put those bytes before what the rest decodes to; a size line of zero ends the body. |
| ChunkedBody.ParseIsSound | runtime/http_client.php:298-325 | Every decodable body splits into a valid coding that is that body. |
| ChunkedBody.HexValueOfText | runtime/http_client.php:307-311 | A chunk size is read as the number its digits stand for in base sixteen, in either case. |
| ChunkedBody.HexDigitMeans | runtime/http_client.php:307-311 | A digit's value is its place among the sixteen digits. |
| ChunkedBody.LeadingZero | runtime/http_client.php:307-311 | A leading zero does not change a chunk size. |
| ChunkedBody.DecodeChunked | runtime/http_client.php:298-325 | The offset loop ends on every input and computes that decoding. |
| Broadcast.EveryRunDelivers | runtime/ws.php:103-129 | In every run each node has queued, in order and once each, exactly the deliverable entries of others between its start and its cursor, and its own since its start exactly once, at emission; nodes may leave and come back under the same identifier. |
| Broadcast.QueuedAreForeign | runtime/bootstrap.php:2044-2079 | In every reachable state what a node queued from the stream matches, one to one and in order, the published entries from its start to its cursor that are not its own, name an event and go to everyone or to a room; none of its own entries is among them. |
| Broadcast.ConsumedExactly | runtime/bootstrap.php:2039-2080 | A poll goes on to the end of the stream or of its batch unless an unreadable entry stops it, which is then the last it consumes. |
| Broadcast.StepKeepsInv | runtime/bootstrap.php:2039-2080 | Joining, leaving, emitting, polling and foreign writes each keep that. |
| Broadcast.CaughtUpNodesAgree | runtime/bootstrap.php:2027-2080 | What a caught-up reader relayed from a writer ends with all the writer emitted since both were there, in order and once each; before it come only entries that the writer's identifier had in the stream earlier. |
| Broadcast.MessagesArrive | runtime/bootstrap.php:1855-2080 | From every reachable state a message that is emitted, or published by another program, is the last that any other node has queued once it has polled through the stream. |
| Broadcast.PollsCatchUp | runtime/bootstrap.php:2039-2080 | From every reachable state a node that polls as often as there are entries ahead of it has read the whole stream, unreadable entries included. |
| Broadcast.Worker.Emit | runtime/bootstrap.php:1855-1865 | A named event is queued locally once and appended once; an unnamed one does nothing. |
| Broadcast.Worker.DrainAdapter | runtime/bootstrap.php:2039-2080 | A poll advances the cursor over exactly the entries it consumed and queues exactly the others' entries among them, also when it stops at an unreadable one. |
| Broadcast.Worker.constructor | runtime/ws.php:166-171 | A node starts at the end of the stream with nothing queued. |
| Scheduler.EveryRunIsSafe | runtime/async.php:269-430 | In every run, nested awaits and cancellations from inside included, a Future's Fiber is started at most once, resumed only while suspended, not complete and due at the time it asked for itself, and gets no control back once cancelled; each Future stays in one scope at most. |
| Scheduler.StepFollowsLife | runtime/async.php:300-319 | Each possible step takes each Future along its life cycle, with no forbidden event; an advance enters a Future that is new, or suspended, not complete and due, and a Fiber that returns or throws leaves it fulfilled or rejected. |
| Scheduler.ControlMoves | runtime/async.php:300-319 | Which Fiber has control after each step: the one that is entered, or the one below when it suspends or ends. |
| Scheduler.RegistrationMoves | runtime/async.php:361-388 | Which Futures a scope holds after each step: created ones join theirs, and cancelled, forgotten and reset ones leave. |
| Scheduler.StepKeepsInv | runtime/async.php:269-430 | Every enabled step keeps state, Fiber and stack of running Futures consistent. |
| Scheduler.StartIsSafe | runtime/async.php:269-299 | The empty scheduler meets what the run theorems ask of their first state. |
| Scheduler.TerminalIsForever | runtime/async.php:300-334 | Once a Future is complete and its Fiber does not have control, its state never changes, whatever the rest of the run does. |
| Scheduler.TerminalChangesExactlyWhen | runtime/async.php:300-334 | In any consistent state a step changes a completed state if and only if it ends that Future's own Fiber. |
| Scheduler.OnlyCancelDisturbs | runtime/async.php:327-334 | A Future whose Fiber is on the stack becomes complete there only by being cancelled, alone or with its scope. |
| Scheduler.SelfCancelIsOverwritten | runtime/async.php:300-334 | A Future cancelled from its own Fiber ends as fulfilled. |
| Scheduler.ResetIsForever | runtime/async.php:375-388 | After a reset each Future of that scope whose Fiber does not have control keeps the state it had completed with, or stays cancelled, whatever the rest of the run does. |
| Scheduler.Loop.ResetScope | runtime/async.php:375-388 | The loop that cancels one Future after another, each unregistering itself, empties exactly its scope, cancels exactly that scope's incomplete Futures and changes nothing else. |
| Scheduler.Loop.CancelFuture | runtime/async.php:327-334 | One Cancel step: completed Futures are left alone. |
| Scheduler.Loop.AdvanceFuture | runtime/async.php:300-319 | One Advance step: only a new, or a suspended and due, Future is entered. |
| Scheduler.Loop.Unregister | runtime/async.php:366-373 | Removes one Future and drops its scope's entry when that becomes empty. |
| Channels.EveryRunIsFifo | runtime/async.php:432-469 | Under every interleaving, received followed by queued is what was sent, a positive capacity is never exceeded, nothing is accepted after closing, and once a receiver has been told that the channel is exhausted (by a null, when no null is sent) everything sent has been received. |
| Channels.StepKeepsInv | runtime/async.php:432-469 | Each attempt and each close keeps that. |
| Channels.AttemptMeans | runtime/async.php:446-466 | In every reachable state: an attempt to send adds the value to what was sent if and only if the channel is open with room; an attempt to receive takes the first value not yet received if there is one; the call ends exactly then, or when the channel is closed. |
| Channels.Channel.TrySend | runtime/async.php:446-455 | One attempt: waits exactly while open and full, is refused exactly when closed, and otherwise puts the value last in the queue. |
| Channels.Channel.TryReceive | runtime/async.php:457-466 | One attempt: takes the oldest value and leaves the others, waits exactly while open and empty, and answers null exactly when closed and empty. |
| Channels.Channel.CloseChannel | runtime/async.php:468 | Closes the channel and keeps what is queued. |
| Channels.EveryRunIsExclusive | runtime/async.php:471-487 | Under every interleaving, suspensions and exceptions included, at most one operation is inside the mutex, and the flag says which. |
| Channels.LockStepIsExclusive | runtime/async.php:471-487 | Each arrival, attempt and exit keeps that. |
| Channels.Mutex.TryEnter | runtime/async.php:475-480 | Enters if and only if nobody is inside. |
| Channels.Mutex.Exit | runtime/async.php:481-485 | Leaves the mutex free. |
| Admission.EveryRunIsCounted | runtime/database.php:69-129 | Under every interleaving and on every exit path, `active` and `waiting` are the numbers of executing and waiting calls and never exceed their limits; when no call is left both are zero. |
| Admission.StepIsCounted | runtime/tasks.php:62-94 | Each arrival, poll, timeout and end keeps that, with or without a bounded queue. |
| Admission.CallsMove | runtime/database.php:75-129 | In every reachable state: a call that arrives executes if and only if fewer than the allowed number do, and waits if and only if there is room; a waiting call executes as soon as a worker is free; one that ends or gives up is gone, and no other call is touched. |
| Admission.Pool.Admit | runtime/database.php:75-92 | A call executes at once if and only if a worker is free, and is turned away if and only if none is and the queue is full. |
| Admission.Pool.Poll | runtime/database.php:80-92 | A waiting call gets a free worker even at its deadline, waits on exactly while none is free and it has time, and gives its place back when it times out. |
| Admission.Pool.Release | runtime/database.php:92-129 | Every way a call ends gives its worker back. |
| Admission.Drain | runtime/tasks.php:200-215 | The output kept is the longest prefix, within the limit, of all output so far, and the truncation flag says exactly whether something was dropped; draining stops only after 64 reads, at the end or at an empty read. |
| RequestScope.EveryRunIsClean | runtime/scope.php:34-163 | Over every interleaving of scopes in any number of Fibers, with cleanups that suspend, each closed scope called every cleanup it accepted once, last first, with the counts of one uninterrupted closing; the detector never counts too many scopes, and counts exactly those open while no cleanup finishes its own scope. |
| RequestScope.AdvancedIsSound | runtime/scope.php:137-163 | At each point of a closing, what it has done and what it still has to do make up one uninterrupted closing. |
| RequestScope.ClosingEnds | runtime/scope.php:143-156 | Every closing ends, however its cleanups finish the scope themselves. |
| RequestScope.StartIsClean | runtime/scope.php:184-187 | The detector with no scope meets what the run theorem asks of its first state. |
| RequestScope.CountBreaksExactlyWhen | runtime/scope.php:196-208 | From an exact count, a step leaves an exact count if and only if it is not the end of a closing that a cleanup started. |
| RequestScope.StepStaysPlain | runtime/scope.php:102-163 | That cannot happen while no deferred cleanup finishes its scope. |
| RequestScope.CountStaysExactlyWhen | runtime/scope.php:137-208 | From an exact count, an uninterrupted closing leaves an exact count if and only if none of its cleanups finishes the scope or it is the only one open. |
| RequestScope.UnwindCounts | runtime/scope.php:137-163 | However closings nest, each failure is counted once, and the detector is called once plus once per cleanup that finishes the scope. |
| RequestScope.ReportsExactlyWhen | runtime/scope.php:137-208 | The failures reported to the detector are the scope's own if and only if none was counted before the first finishing cleanup had finished the scope. |
| RequestScope.ReversedAt | runtime/scope.php:143-154 | The i-th deferred cleanup is the i-th from the end to be called. |
| RequestScope.Scope.Close | runtime/scope.php:137-163 | The popping loop, re-entered by cleanups that finish the scope, calls each cleanup once in reverse order with exactly the counts above. |
| RequestScope.Scope.Finish | runtime/scope.php:63-74 | Closes the scope that the Fiber context names and drops it; without one nothing happens. |
| RequestScope.Scope.Defer | runtime/scope.php:102-107 | Accepted exactly while the scope is active, and changes nothing otherwise. |
| RequestScope.ScopeOpensAndFinishes | runtime/scope.php:34-74 | A begin where there is no scope opens one and counts it, it holds what is deferred to it, and finishing it starts its closing with all of that still to call. |
| RequestScope.DefersKeepOrder | runtime/scope.php:102-107 | Cleanups are held in the order in which they were deferred. |
| RequestScope.LeakDetector.ScopeClosed | runtime/scope.php:201-208 | Lowers the count by one, but not below zero. |
| Supervisor.EveryRunIsStaffed | src/cluster.rs:403-482 | After every sequence of ticks and reloads that does not end the supervisor the identifiers are exactly 1..N, each in its pool and all of the current generation, which has risen by exactly the number of reloads whose replacements all became ready. |
| Supervisor.EndsExactlyWhen | src/cluster.rs:410-480 | A run ends the supervisor if and only if at some event an exited worker cannot be spawned again or a replacement cannot be spawned. |
| Supervisor.SweepKeepsStaff | src/cluster.rs:437-479 | A sweep keeps that, whichever workers have exited. |
| Supervisor.SweepKeepsIds | src/cluster.rs:437-479 | Removing and appending while going backwards neither loses nor repeats an identifier. |
| Supervisor.SweepWorkers | src/cluster.rs:437-479 | The loop inspects each old worker exactly once, last first, and no replacement, and fails if and only if an exited worker cannot be spawned again. |
| Supervisor.SweepReplacesExactly | src/cluster.rs:453-478 | After a sweep each worker is there unchanged, or, if it had exited, as a new process of the current generation with its identifier, its pool and one failure more, or a first one if it had run for a minute. |
| Supervisor.CrashesAddUp | src/cluster.rs:453-478 | A worker that keeps crashing within a minute counts one more failure each time up to the maximum, under the same identifier and in the same pool. |
| Supervisor.Supervisor.Reload | src/cluster.rs:410-435 | Staff and generation change if and only if every replacement was spawned and became ready; otherwise nothing does, and a spawn that fails is reported. |
| Supervisor.Supervisor.Check | src/cluster.rs:436-481 | A tick keeps the staffing invariant, or fails exactly when a spawn does. |
| Supervisor.Supervisor.SpawnGeneration | src/cluster.rs:575-614 | The nested loops number the workers 1..N through the pools in order, or fail if and only if one of them cannot be spawned. |
| Supervisor.EveryPoolIsStaffed | src/cluster.rs:575-614 | There are as many identifiers as workers asked for, and each pool name gets its share. |
| Supervisor.WaitGenerationReady | src/cluster.rs:732-768 | Succeeds if and only if some poll before the deadline finds all workers ready and no earlier poll found one exited. |
| Supervisor.BackoffDoubles | src/cluster.rs:458-467 | Each failure doubles the delay up to thirty seconds, until the ninth, after which it stays. |
| StartupStats.P95IsNearestRank | src/cluster.rs:838-842 | The indexed element of the sorted values is the least element that at least 95% of the values do not exceed. |
| StartupStats.P95IsPermutationInvariant | src/cluster.rs:838-842 | The order of the values does not matter. |
| StartupStats.P95IsDetermined | src/cluster.rs:838-842 | Only one value has that property. |
| StartupStats.SummarizeStartupTimings | src/cluster.rs:783-799 | Returns that percentile with the true maximum of the durations and the true spread of the spawns, or nothing for no worker. |
| StartupStats.LastIsMaximum | src/cluster.rs:783-799 | The last of the sorted values is their maximum. |
| StartupStats.Durations | src/cluster.rs:783-799 | A worker's duration is the time from its spawn until it was ready. |
| Metrics.RowsAddUp | src/control_plane.rs:461-531 | The rows account for each worker once, and each summed column, named by the worker field it sums, adds up to the cluster's figure when that fits 64 bits. |
| Metrics.PoolSumsAddUpExactlyWhen | src/control_plane.rs:339-346 | The pools' saturating sums add up to the cluster's if and only if the true total fits 64 bits or one pool has all of it. |
| Metrics.PoolsPartition | src/control_plane.rs:461-480 | The filtered pools are a partition of the workers. |
| Metrics.SumSaturatesOnce | src/control_plane.rs:339-344 | Saturating at each addition equals saturating the true total once. |
| Metrics.PoolRows | src/control_plane.rs:461-531 | One row for each pool that has a worker, in name order, computed from exactly that pool's workers. |
| Metrics.Row | src/control_plane.rs:482-531 | A pool's lag figures are the true maxima of its workers' and their weighted mean, and its head count is their number. |
| Metrics.LagColumns | src/control_plane.rs:536-542 | The mean lag is formed from the workers' lag totals and sample counts. |
| Metrics.Pools | src/control_plane.rs:461-467 | The sorted, deduplicated names are exactly the workers' pools, with "default" for none. |
| Metrics.SortedIsDetermined | src/control_plane.rs:466-467 | Sorted names without repetition are fixed by their set, so an unstable sort cannot show. |
| Metrics.Histogram | src/control_plane.rs:407-421 | Rows never decrease, and each is the true number of requests up to its bound if and only if that number fits 64 bits, though each bucket is summed with wrap-around. |
| Metrics.MeanLagBetween | src/control_plane.rs:536-542 | The weighted mean lag is at least the smallest mean of the workers with samples unless the lag total saturates, and at most the largest when no worker shows lag without a sample, unless the sample total saturates. |
| Metrics.MeanLagAtMostExactlyWhen | src/control_plane.rs:536-542 | For all totals, saturated ones included: the weighted mean lag is at most a bound if and only if the lag of workers without a sample fits into what the workers with samples leave of that bound, corrected by what saturation took off. |
| Metrics.MeanLagAtLeastExactlyWhen | src/control_plane.rs:536-542 | The same for a bound from below. |
| Metrics.UncountedLagLiftsTheMean | src/control_plane.rs:536-542 | Lag without a sample can lift the mean above every worker's own. |
| PngRows.DefilterInvertsFilter | scripts/product-visual-evidence.py:103-134 | For every image and any filter 0-4 per row, decoding the filtered rows gives the original bytes (section 9 of the W3C PNG specification). |
| PngRows.RowRoundTrip | scripts/product-visual-evidence.py:112-129 | For one row, filtering and rebuilding undo each other in both orders. |
| PngRows.FiltersMean | scripts/product-visual-evidence.py:112-129 | The same reading of the five filters for the function that specifies the loop. |
| PngRows.DefilteredRowsAreRebuilt | scripts/product-visual-evidence.py:103-134 | A stream decodes to as many rows as announced, each rebuilt in that way from its filter byte and the row above, or holds an unknown filter byte. |
| PngRows.PaethIsFirstNearest | scripts/product-visual-evidence.py:43-50 | The predictor is a nearest of the three neighbours, and the first such in the order left, above, upper left. |
| PngRows.DefilterRow | scripts/product-visual-evidence.py:112-129 | The in-place loop computes the rebuilt row, and each rebuilt byte is the encoded one plus, modulo 256, nothing, the byte one pixel to the left, the byte above, the floor of half their sum, or the first nearest of the three neighbours, as the filter says; bytes left of the row count as 0. |
| PngRows.DecodeRows | scripts/product-visual-evidence.py:100-135 | For a stream of the announced size, the pixels of the defiltered rows, or a failure if and only if a row has an unknown filter; for the stream of an image with any choice of filters, that image's pixels. |
| PngRows.FilteredLength | scripts/product-visual-evidence.py:100-102 | The stream of every image has the size the decoder expects. |
| PngRows.OpaqueRowsKeepEveryPixel | scripts/product-visual-evidence.py:130-133 | With three channels every pixel is kept, in order. |
| PngRows.TransparentPixelsAreSkipped | scripts/product-visual-evidence.py:130-133 | With an alpha channel the pixels kept are, in order and once each, exactly those that are not fully transparent. |
| PngRows.AppendPixels | scripts/product-visual-evidence.py:130-133 | The stepping loop appends the row's pixels, leaving out the fully transparent ones. |

## Left out

- RedisClient.Client.Command: says nothing about how long a call takes; the deadline is a number of network operations. Timeouts, closed connections, refused replies and a refused handshake are one failure without a text.
- Dispatcher.NonInterference: is about the native entry points; calls made inside PHP, which skip their reset of header bag and status, are described only by Dispatcher.EscapeLeaves. The recursion after an illegal suspension is not modelled.
- Dispatcher.ReplyMeans: speaks of responses in range of the wire format; output of 4 GiB or more that is merged into an empty body does not fit its length field and is outside it.
- Dispatcher.EscapesExactlyWhen: speaks of requests whose response is in range of the wire format.
- NatsFrames.Delivery: is about one connection; what a reconnect attempt brings is not modelled.
- Metrics.MeanLagBetween: is over the reals; printed rounding is not modelled.
- Broadcast.EveryRunDelivers: publish retries, trimming and adapter failures in the middle of a batch are outside it.
- RequestScope.EveryRunIsClean: a scope finished from a Future's Fiber that inherited it, at the same time as by its own Fiber, is outside it.
- RequestScope.Scope.Close: is one Fiber's closing without interruption; interruptions are in RequestScope.EveryRunIsClean. A cleanup that finishes its scope and then begins another in the same Fiber is not modelled, nor are scope values and memory sampling.
- Scheduler: the sleeping loop that picks the next Future; any order of steps is covered instead. Results and errors of Futures are not carried.
- Broadcast: the lists of sockets and rooms attached to a queued message, and JSON encoding.
- Cluster: `staggered_max_requests`, which spreads the request limits of the workers, `terminate_workers`, which signals workers and waits for them, the state files and the health records are not modelled.
- Control plane: `ready`, `health`, `diagnostics` and the label text of the metrics.
- PNG: the chunk walk, checksums and decompression before the rows.
- PHP sessions, uploads, the Laravel bridge, multipart parsing, URL resolution, TLS, DNS and the native Zend bridge.
