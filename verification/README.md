# A verified model of the sans-IO WebSocket engine

This project models the connection engine of a freestanding WebSocket library (RFC 6455) in Dafny and
proves what it promises: the incremental receive machine and the send side of `src/sdk/conn.c`, the
layers below it (frame headers, masking, streaming UTF-8, overlapping moves), the echo server's
feed/drain/reply loop above it, and the two encoders of the opening handshake (SHA-1 padding, base64).

## How it is laid out

The imperative C functions are Dafny methods with the same branches and loops, on arrays and on classes
whose fields are the C fields; helpers of a line or two, such as `recv_blocked`, `accept_control`,
`resolve_mask_key` and `mask_byte`, are written out in their callers, and pure helpers are functions.
Each method is proved equal to a function on values; the theorems are about those functions, and hence
about the methods.

| module | contents |
|---|---|
| `Bytes` | bytes, words, exclusive or, shifts, splicing |
| `Bits` | the arithmetic forms of the bit operations agree with 8-bit words |
| `Mem`, `Mask`, `Utf8`, `FrameHeader` | the layers `mem.c`, `mask.c`, `utf8.c`, `frame.c` |
| `ConnSpec` | the complete value of a `conn_impl`, every operation as a function, and the invariant |
| `Conn` | the class `Connection`: the mutating code over `msg` and `rxhdr`, against `ConnSpec` |
| `Session` | feeding bytes and draining events; chunking independence |
| `Stream` | the meaning of a byte stream, read frame by frame without buffers; the refinement proof |
| `Errors` | when exactly a protocol error is reported, in terms of the frames received |
| `Closing` | the same in CLOSING, where data is dropped but still checked |
| `Sending` | which sends a peer accepts, and what it reports |
| `History` | arbitrary sequences of calls on one connection |
| `Reopening` | what a connection does after a Close sent from CLOSED |
| `Buffer` | what the one message buffer holds in every run, and the capacity checks |
| `Duplex` | two endpoints and two FIFO byte channels, any interleaving and any chunking; the invariant |
| `Protocol` | what every run of the two endpoints guarantees |
| `Echo`, `EchoDriver` | the server loop, as a function of the session and as methods on a client slot |
| `Sha1`, `Base64` | padding and block walk; encoder and a reference decoder |

The chain of results on receiving is: the methods of `Connection` compute `ConnSpec.RecvFrame`, which
takes one byte at a time; any chunking of the input gives the outcome of that byte-by-byte feeding
(`Session.ChunkingIndependence`); that outcome is the reading of the stream as a list of frames
(`Stream.FeedRefines`). The reading knows nothing of the shared buffer: the staging of the next payload
behind the collected message, the unmasking in place and the backwards overlapping move are all inside
the refinement. Errors, the two-endpoint protocol and the echo session are then proved on the reading.

A `State` holds the contents of `msg` and `rxhdr`, so "the same state" always includes both buffers.
`Stream.Sound` is the invariant of every run that does not send a Close from CLOSED: the header bytes
held are exactly an unfinished header or exactly one header, and the UTF-8 automaton has read exactly
the text collected so far.

## Where the code and its documentation differ

The model follows the code.

* `docs/security.md:19` says that a Close reason that is not UTF-8 fails the connection with code 1007.
  The code reads only the first two bytes of a Close payload (`src/sdk/conn.c:186-192`) and never
  produces 1007 for bad text: a text message that is not UTF-8 is reported as an error, to which the
  server answers 1002. A 1007 that the peer sent is in the valid range, so it is reported, and the
  server sends it back (`Sending.InvalidPayloadCode`, `Sending.ReasonIgnored`).
* A Close sent from CLOSED takes the connection back to CLOSING (`src/sdk/conn.c:394-397`). The server
  does this after every error. `History.StatusFalls` says that this is the only way the status falls,
  and `History.ReopensOnce` that it happens at most once. `Reopening.AfterReopening` says what the
  connection can still do: it consumes nothing ever again exactly when the refused header was a whole
  one of 14 bytes; a shorter refused header is refused again with the next byte; otherwise it goes on
  reading in CLOSING. `Reopening.ReopenedStuck` gives inputs for the first case.
* A delivered message keeps its length in `msg_len` (`src/sdk/conn.c:147-159`), so the next frame has
  to fit in what is left. This is `CapacityRule` in the error characterisation, and the reason why two
  endpoints need buffers of twice the largest payload.
* `ws_send_message` does not restrict its opcode, and `ws_send_ping` and `ws_send_pong` do not restrict
  their size (`src/sdk/conn.c:379-390`). `Sending.SentAccepted` says exactly which sends a peer accepts.
* In CLOSING, data frames are dropped without updating `in_message`, but are still checked against it
  (`src/sdk/conn.c:80-87, 220-226`). So a peer that obeys the rules is hit: a fragmented message that
  begins after the local Close is an error at its second frame (`Closing.FragmentsRefused`, and
  `Closing.ObedientPeerRefused` for four bytes that are a message before the Close and an error after
  it). `Closing.ErrorIffOffence`
  and `Reopening.ClosingErrors` say exactly which inputs raise an error in CLOSING.

## Model

| member | source | states |
|---|---|---|
| Protocol.RunsAreSafe | src/sdk/conn.c:195-226 | in every run of a client and a server joined by FIFO byte channels, under any interleaving and chunking, with proper sends and buffers of twice the largest payload, measured against the data passed to the successful sends: no error event; OPEN, CLOSING, CLOSED are exactly zero, one, both of "Close sent, Close received"; the events seen are the first ones sent in full and then the control events of a further stretch, messages missing only after an own Close; an endpoint that at some point had seen the peer's Close before sending its own has every message from there to the end of the run; one that has not sent a Close and has an empty channel has every event; one with an empty channel is CLOSED once both have sent a Close |
| Protocol.CompleteFrom | src/sdk/conn.c:195-226 | once a side has seen the peer's Close without having sent its own, it has every message of the peer at the end of the run, whatever both do afterwards |
| Protocol.HasAllBegins | src/sdk/conn.c:195-200 | at that moment the peer has sent its Close and every one of its messages has arrived |
| Protocol.HasAllNext | src/sdk/conn.c:379-415 | no call by either side takes that away: the peer can send no further message |
| Protocol.SentIsAsked | src/sdk/conn.c:379-415 | the frames logged as sent are, in order, the data passed to the calls that put something out, and for a Close the code passed, or 1000 if it is reserved, as the peer reports it |
| Protocol.MovePosts | src/sdk/conn.c:379-415 | a call logs one frame, with the data passed to it, exactly when it returns nonzero |
| Duplex.MoveKeeps | src/sdk/conn.c:369-415 | every receive, poll or send by either side keeps the invariant that ties state, channel contents and logs together |
| Protocol.PairGuarantees | src/sdk/conn.c:195-226 | all of these, in any state that satisfies the invariant, against the events of the frames sent |
| Duplex.StartConsistent | src/sdk/conn.c:43-53 | two fresh connections satisfy the invariant |
| Duplex.Next | src/sdk/conn.c:369-415 | one call by either endpoint, seen from both directions, keeps the system consistent |
| Duplex.Run | src/sdk/conn.c:369-415 | a run of any length from a consistent system ends in a consistent system |
| Duplex.MoveIsSend | src/sdk/conn.c:379-415 | the bytes on the channel and the state after a move are those of the send functions |
| Duplex.ProperStep | src/sdk/conn.c:220-226 | a frame built by a proper send has its one event and leaves the receiver between messages; in CLOSING data has none |
| Duplex.NextByte | src/sdk/conn.c:245-323 | one byte of the next frame: still unfinished, or the frame's event and status change exactly at its last byte |
| Duplex.BytesMove | src/sdk/conn.c:309-328 | handing over any number of bytes of the channel keeps the link between the logs and the state |
| Protocol.MessagesArrive | src/sdk/conn.c:220-226 | messages in order, none invented; all of them as soon as a Close is among the frames that were handled in full |
| Protocol.NothingLeft | src/sdk/conn.c:245-323 | an endpoint that is not closed and has an empty channel has handled every frame sent to it |
| Protocol.SettledSeesAll | src/sdk/conn.c:325-338 | delivery: from any point of any run, an endpoint that has not sent a Close and goes on polling and receiving has seen exactly the events of all frames sent to it, in order |
| Protocol.SettledIsClosed | src/sdk/conn.c:195-200 | the handshake completes: once both sides have sent a Close, an endpoint that goes on polling and receiving is CLOSED |
| Protocol.HandledSees | src/sdk/conn.c:220-226 | the events reported are the first ones sent, in full, and then control events only, all in order |
| Protocol.HandshakeDone | src/sdk/conn.c:195-200 | with both Close frames sent and nothing left to read the status is CLOSED |
| Protocol.Settle | src/sdk/conn.c:325-338 | polling and receiving ends, with an empty channel or a closed connection, and keeps the invariant |
| Protocol.ReceiveShrinks | src/sdk/conn.c:309-328 | in a run, a drained endpoint that is not closed takes some of any non-empty channel |
| Session.ChunkingIndependence | src/sdk/conn.c:245-328 | any split of the input gives the same events, the same total consumed and the same complete final state as one byte at a time |
| Session.SplitsAgree | src/sdk/conn.c:245-328 | two splits of one byte string cannot be told apart |
| Session.ChunkIsBytes | src/sdk/conn.c:309-328 | receive-then-drain over one chunk is byte-by-byte feeding |
| Session.RecvIsFeed | src/sdk/conn.c:309-328 | one call consumes something of a non-empty input and does what byte-by-byte feeding does up to there |
| Session.FeedConcat | src/sdk/conn.c:245-328 | feeding a then b is feeding a + b |
| Session.QuietByte | src/sdk/conn.c:301-303 | a byte inside a frame raises no event and changes no status |
| Stream.FeedRefines | src/sdk/conn.c:117-328 | for every byte string, the buffer machine emits exactly the events of the buffer-free reading of the stream and ends where the reading ends |
| Stream.FramesRefine | src/sdk/conn.c:117-237 | for every concatenation of wire frames, the events of the frame-list machine: payloads unmasked, fragments joined in order, first opcode kept, control frames passed through |
| Stream.FrameRefines | src/sdk/conn.c:229-237 | a complete staged frame does what the frame machine does, or both report an error |
| Stream.StepByOpcode | include/ws/frame.h:8-13 | what an accepted frame means by the number of its opcode: 9 is a ping, 10 a pong, 8 a Close, 1 and 2 start a message, 0 continues one, and nothing else is accepted |
| Stream.ByteRefines | src/sdk/conn.c:245-323 | one byte: refusal, growth of the unfinished frame, or its completion |
| Stream.DataRefines | src/sdk/conn.c:117-169 | a data frame in OPEN appends exactly its payload to the message in the shared buffer; the text rule decides between success and error |
| Stream.ControlRefines | src/sdk/conn.c:195-217 | a control frame reports its own payload and opcode and leaves the collected message alone |
| Stream.UnmaskedHolds | src/sdk/conn.c:234-235 | unmasking in place yields the clear data and touches only the staged payload: the bytes before and behind it stay |
| Stream.MovedAcc | src/sdk/conn.c:125-137 | the overlapping move puts the fragment right behind the message, whatever overlaps |
| Stream.TextVerdict | src/sdk/conn.c:135-148 | the streaming verdict on a fragment is the verdict on the whole text so far |
| Stream.HeaderEndsHere | src/sdk/conn.c:245-253 | the header loop stops exactly at the header's length |
| Stream.StagedIncomplete | src/sdk/conn.c:240-298 | staged bytes never contain a whole frame or a refused header |
| Stream.SoundTakes | src/sdk/conn.c:240-242 | a connection that is not closed always has room for the next header byte |
| Stream.ReadFrames | src/sdk/conn.c:309-323 | reading the wire form of frames is stepping through the frames |
| Stream.ReadConserves | src/sdk/conn.c:309-323 | the bytes read are the completed frames followed by the rest |
| Stream.Conservation | src/sdk/conn.c:293-328 | without an error, bytes staged before plus bytes consumed are the completed frames plus the bytes staged now |
| Stream.Progress | src/sdk/conn.c:309-328 | a drained connection that is not closed consumes at least one byte of any non-empty input |
| Stream.NeverPastTheFrame | src/sdk/conn.c:293-323 | before the last byte a call consumes, the frame is incomplete: no byte of the following frame is taken |
| Stream.TextIsWellFormed | src/sdk/conn.c:147-159 | every text message in a reading is well-formed UTF-8 as a whole |
| Stream.TextMessages | src/sdk/conn.c:117-159 | every text message event of the machine carries well-formed UTF-8 as a whole, however it was fragmented and chunked |
| Stream.InitSound | src/sdk/conn.c:43-53 | a fresh connection satisfies the invariant and is the start of a reading |
| Errors.ErrorIffViolation | src/sdk/conn.c:73-106 | a connection that only receives reports an error while open if and only if its input is legal frames followed by a violation: a bad header, a length over capacity, RSV, masking, control, fragment or text rule broken |
| Errors.LegalIsAcceptable | src/sdk/conn.c:73-106 | the machine's checks on its own state are the rules on the history of frames |
| Errors.LegalSteps | src/sdk/conn.c:129-159 | after a legal frame the state is again the one that the history of frames determines, and no error or Close was reported |
| Errors.ErrorHasCause | src/sdk/conn.c:256-288 | from any legal history, an error before a Close comes from legal frames and then a violation |
| Errors.ViolationReads | src/sdk/conn.c:256-288 | a violation makes the very next event an error |
| Errors.BufferHoldsMessage | src/sdk/conn.c:116-144 | after any legal frames and part of a further one, fed to a fresh connection, the buffer starts with exactly the unmasked fragments of the message, the part is staged behind them, and nothing is written past the capacity; runs with arbitrary calls are in `Buffer.BufferHoldsFragments` |
| Buffer.BufferHoldsFragments | src/sdk/conn.c:116-169 | in every run of arbitrary calls without a Close sent from CLOSED: the buffer starts with exactly the unmasked fragments of the last message among the frames handled in OPEN, `in_message` and the opcode are theirs, the bytes consumed are whole frames followed by the staged part, and nothing lies beyond the capacity; after an own Close in mid-message the collected bytes stay as they were |
| Buffer.TracksByte | src/sdk/conn.c:245-323 | one byte, in OPEN or CLOSING, keeps the relation between the bytes consumed and the buffer |
| Buffer.TracksStep | src/sdk/conn.c:325-415 | so does every call that does not reopen |
| Buffer.ConsumeContent | src/sdk/conn.c:229-237 | a complete frame appends its clear payload to the collected bytes if it is data with a good header in OPEN, and leaves them alone otherwise, errors included |
| Buffer.FramedIs | src/sdk/conn.c:309-323 | splitting bytes into frames by their headers loses nothing and leaves no whole frame over |
| Buffer.FramesOfWires | src/sdk/conn.c:309-323 | the frames put on the wire are the frames found there |
| Buffer.CompletedIs | src/sdk/conn.c:256-264 | whenever `consume_frame` is called, the room found at the header is still there |
| Buffer.InsideCall | src/sdk/conn.c:309-323 | inside a receive call the state is that of a shorter call, and the next byte is one step |
| Closing.ErrorIffOffence | src/sdk/conn.c:80-106 | from every sound state in CLOSING, that is in every run that has not reopened or that reopened with no header held: an error comes before the next Close if and only if the bytes are passing frames followed by a bad header, a length over the room left, or a frame that breaks the RSV, mask or control rule or is data with a bad opcode or not (continuation iff a message was in progress); the remaining states are in `Reopening.ClosingErrors` |
| Reopening.ClosingErrors | src/sdk/conn.c:80-106 | in every CLOSING state of every run, reopenings included: with a refused header held an error comes iff a byte is taken, otherwise iff the bytes are passing frames followed by an offence |
| Reopening.KnownRuns | src/sdk/conn.c:325-415 | every state of every run is sound, or was reopened and still holds a refused header |
| Reopening.RefusedFeed | src/sdk/conn.c:245-264 | with a refused header of fewer than 14 bytes held, the next byte is an error; with 14 there is never one |
| Closing.FragmentsRefused | src/sdk/conn.c:80-87 | a fragmented message that begins in CLOSING is an error at its continuation, however well formed |
| Closing.ObedientPeerRefused | src/sdk/conn.c:220-226 | on the machine: the bytes 01 00 80 00 are an empty text message for a fresh client and an error after its Close |
| Closing.OffenceFound | src/sdk/conn.c:220-226 | an error before the next Close has a first offence after passing frames |
| Closing.OffenceSeen | src/sdk/conn.c:220-226 | passing frames and then an offence lead to an error before any Close |
| Sending.SentAccepted | src/sdk/conn.c:369-390 | what an open peer between messages does with any send: the one event if opcode, size and text are good and it fits, an error otherwise |
| Sending.SentIs | src/sdk/conn.c:359-377 | a sent frame is final, without RSV bits, masked by clients only, and unmasks to the data |
| Sending.BuiltFrame | src/sdk/conn.c:359-377 | a send puts out the wire form of its frame, and only if there is a key and room |
| Sending.CloseRoundTrip | src/sdk/conn.c:171-192 | a Close sent with 1005, 1006 or 1015 is reported as 1000, one with a code in the valid ranges as that code, any other as 1002 |
| Sending.ClosePayloadIs | src/sdk/conn.c:400-410 | the two bytes of a Close are the code asked for, high byte first, and 03 E8 for 1005, 1006 and 1015 |
| Sending.ReportedCode | src/sdk/conn.c:176-192 | the code reported for any payload: 1005 below two bytes, the code if it is in 1000-1003, 1007-1011 or 3000-4999, and 1002 otherwise |
| Sending.ServerCloseBytes | src/sdk/conn.c:404-415 | the bytes of a server's Close: 88 02 and the code |
| Sending.ShortWire | src/sdk/conn.c:359-377 | the bytes of a server's short frame: first byte, length, data |
| Sending.FirstByteEvent | src/sdk/conn.c:195-217 | on the machine: the first bytes 81, 82, 88, 89, 8A of a short frame lead to a text message, a binary message, a Close, a ping and a pong with its data |
| Sending.SentCloseRead | src/sdk/conn.c:399-415 | the bytes of a successful `ws_send_close`, read between frames by any peer that is not closed and has room for two bytes, are one Close event with the sanitised code, or 1002 if that is out of range; OPEN goes to CLOSING and CLOSING to CLOSED |
| Sending.CloseFrameRead | src/sdk/conn.c:186-200 | any peer that is not closed and has room for two bytes reports the sanitised code of a Close frame, or 1002 if that is out of range, and changes nothing but its status, even in the middle of a message |
| Sending.ReasonIgnored | src/sdk/conn.c:186-192 | of a Close payload only the first two bytes matter: whatever the reason is, UTF-8 or not, the Close is reported |
| Sending.InvalidPayloadCode | src/sdk/conn.c:176-192 | 1007 is reported exactly when the peer sent it |
| History.StatusFalls | src/sdk/conn.c:394-415 | the status rank goes down exactly when a first Close is successfully sent from CLOSED, and then to CLOSING |
| History.RunStatus | src/sdk/conn.c:195-226 | between two points of any run it falls only across such a call |
| History.ReopensOnce | src/sdk/conn.c:404-415 | a run reopens at most once |
| Reopening.ReopenedStuck | src/sdk/conn.c:240-253 | inputs for which it happens: after a refused 14-byte header and a Close, a server is CLOSING and consumes nothing, whatever it is given |
| Reopening.AfterReopening | src/sdk/conn.c:394-415 | in every run that reopens: the connection consumes nothing exactly when the refused header is a whole one of 14 bytes; a shorter refused header is refused again with the next byte; with none held, receiving goes on in CLOSING with the buffers sound |
| Reopening.ProgressIff | src/sdk/conn.c:240-253 | a drained connection consumes something of a non-empty input iff it is not closed and has a header byte free or a payload under way |
| Reopening.HaltedRuns | src/sdk/conn.c:278-288 | in every run up to a reopening, a closed connection that sent no Close holds either nothing or exactly the header that was refused |
| Reopening.StuckForever | src/sdk/conn.c:240-253 | once full, the header buffer stays full and no later call consumes anything |
| Reopening.RefusedAgain | src/sdk/conn.c:245-264 | a header that was refused is refused again with the next byte |
| History.CloseOnce | src/sdk/conn.c:379-415 | after a successful `ws_send_close`, every later close or message send puts out nothing and changes nothing |
| History.CloseSentStays | src/sdk/conn.c:394-397 | `close_sent` is never cleared |
| History.SendCloseCases | src/sdk/conn.c:404-415 | a close is sent iff none was and it can be built; a failed one changes nothing |
| History.MessageOnlyOpen | src/sdk/conn.c:220-226 | no call outside OPEN produces a message |
| History.ByteForward | src/sdk/conn.c:195-226 | a byte never lowers the status, never touches `close_sent`, and yields a message only in OPEN |
| History.PendingFrozen | src/sdk/conn.c:301-328 | until it is polled, a pending event and all bytes of the buffer stay as they are, whatever is called |
| History.PolledOnce | src/sdk/conn.c:330-338 | a poll hands the event over and a second one finds nothing |
| Buffer.SecondCheckIdle | src/sdk/conn.c:129-131 | in any run, at any byte of any receive call: whenever `append_payload` is called there is room for the payload and it is appended, so its capacity check never fires |
| History.SoundStep | src/sdk/conn.c:309-415 | every call but a reopening one keeps the invariant of the buffers |
| History.SoundRuns | src/sdk/conn.c:309-415 | every run from a fresh connection without a Close sent from CLOSED keeps the invariant of the buffers |
| Reopening.OversizeHeader | src/sdk/conn.c:256-260 | a header announcing more than the capacity is refused at its last byte and stays in `rxhdr` |
| ConnSpec.Init | src/sdk/conn.c:43-53 | the initial value satisfies the invariant |
| ConnSpec.OperationsValid | src/sdk/conn.c:325-415 | every operation keeps the invariant in every state it can be called in |
| ConnSpec.RecvFrameValid | src/sdk/conn.c:309-323 | receiving any bytes in any valid state ends in a valid state |
| ConnSpec.TakeByteValid | src/sdk/conn.c:245-298 | each received byte leads from a valid state to a valid state |
| ConnSpec.ConsumeValid | src/sdk/conn.c:229-237 | each complete frame, accepted or refused, leads from a valid state to a valid state |
| Conn.Connection.constructor | src/sdk/conn.c:43-53 | a fresh connection has the initial value over the given buffer |
| Conn.Connection.SetError | src/sdk/conn.c:110-114 | the new value: ERROR pending, CLOSED, all else kept |
| Conn.Connection.BeginMessage | src/sdk/conn.c:117-123 | the new value of the message fields |
| Conn.Connection.AppendPayload | src/sdk/conn.c:129-137 | verdict and whole new state: the payload moved behind the message within the one array, the length, and the UTF-8 state after exactly those bytes; a refusal for lack of room changes nothing |
| Conn.Connection.StageData | src/sdk/conn.c:140-144 | verdict and whole new state: a new message is begun exactly when none is in progress, then the payload is appended |
| Conn.Connection.FinishMessage | src/sdk/conn.c:147-159 | whole new state: incomplete text is an error, otherwise the message event covers the collected bytes and no message is in progress |
| Conn.Connection.AcceptData | src/sdk/conn.c:162-169 | whole new state: error on refusal, event on FIN, otherwise only the appended fragment |
| Conn.Connection.CloseCodeFrom | src/sdk/conn.c:186-192 | the code of the payload bytes in the buffer |
| Conn.Connection.AcceptClose | src/sdk/conn.c:195-200 | whole new state: Close pending with the code of the payload, OPEN to CLOSING, anything else to CLOSED |
| Conn.Connection.AcceptPingPong | src/sdk/conn.c:203-209 | whole new state: event of the right kind over the staged payload |
| Conn.Connection.DispatchFrame | src/sdk/conn.c:220-226 | whole new state: control frames in any status, data only in OPEN, otherwise no change |
| Conn.Connection.ConsumeFrame | src/sdk/conn.c:229-237 | whole new state: a header that breaks the rules is an error before anything is unmasked; otherwise the payload is unmasked in place and dispatched |
| Conn.Connection.PushByte | src/sdk/conn.c:248-251 | one header byte stored within `rxhdr`, and the verdict on all of them |
| Conn.Connection.AccumulateHeader | src/sdk/conn.c:245-253 | the loop stops at a verdict or at the end of the input, at the point where byte-by-byte receiving is |
| Conn.Connection.BeginPayload | src/sdk/conn.c:256-264 | payload phase if the frame fits behind the collected bytes, error and no change otherwise |
| Conn.Connection.RecvHeader | src/sdk/conn.c:268-274 | for each of the three verdicts, what remains of the byte-by-byte call |
| Conn.Connection.EnsureHeader | src/sdk/conn.c:278-288 | the resumed header is the one accepted before |
| Conn.Connection.StagePayload | src/sdk/conn.c:293-298 | the payload loop is the rest of the byte-by-byte call up to the end of input or frame |
| Conn.Connection.HandleFrame | src/sdk/conn.c:318-321 | the staging fields are reset and the frame is handled |
| Conn.Connection.RecvFrameBytes | src/sdk/conn.c:309-323 | state and consumed count of one call equal those of the byte-by-byte specification |
| Conn.Connection.Recv | src/sdk/conn.c:325-328 | whole new state and consumed count, equal to the byte-by-byte specification; nothing at all happens while an event is pending or the connection is closed |
| Conn.Connection.Poll | src/sdk/conn.c:330-338 | the pending event is returned and cleared |
| Conn.Connection.FinishSend | src/sdk/conn.c:354-367 | the payload, masked if asked, behind the header; nothing written when it does not fit |
| Conn.Connection.BuildFrame | src/sdk/conn.c:369-377 | the output starts with the wire form of the frame, or with its header alone when only that fits, or is unchanged without key or room; the result is the length of the wire form, or 0 |
| Conn.Connection.SendMessage | src/sdk/conn.c:379-384 | as building a frame, and nothing at all once a Close was sent; the connection does not change |
| Conn.Connection.SendPing | src/sdk/conn.c:385-387 | as building a frame, also after a Close, and the first byte put out is 0x89; the connection does not change |
| Conn.Connection.SendPong | src/sdk/conn.c:388-390 | as building a frame, also after a Close, and the first byte put out is 0x8A; the connection does not change |
| Conn.FirstByteOut | src/core/frame.c:172-174 | every send puts out 0x80 plus the low four bits of the opcode first |
| Conn.Connection.MarkCloseSent | src/sdk/conn.c:394-397 | CLOSING becomes CLOSED and everything else CLOSING |
| Conn.Connection.CloseBytes | src/sdk/conn.c:409-410 | the sanitised code in two bytes, high byte first |
| Conn.Connection.SendClose | src/sdk/conn.c:404-415 | the Close frame and the state change together, or neither; the output buffer as for any frame |
| FrameHeader.ParseExact | src/core/frame.c:28-185 | the parser accepts a header iff it is valid and its one wire form is a prefix of the input: parser and printer are mutual inverses |
| FrameHeader.ParseSound | src/core/frame.c:28-133 | rebuilding an accepted header gives back exactly the bytes consumed, so lengths are minimal and below 2^63 |
| FrameHeader.ParseComplete | src/core/frame.c:138-185 | parsing printed bytes followed by anything recovers fin, flags, opcode, mask, key and length |
| FrameHeader.ParseStable | src/core/frame.c:109-133 | OK and ERROR never change when bytes are appended |
| FrameHeader.ParsePrefix | src/core/frame.c:109-133 | every strict prefix of a header asks for more |
| FrameHeader.ParseDecides | src/core/frame.c:109-133 | fourteen bytes always decide |
| FrameHeader.BadIff | src/core/frame.c:28-61 | the parser refuses exactly a 16-bit length below 126, a 64-bit length at most 0xFFFF and one with the top bit set |
| FrameHeader.LongHeaderRefused | src/core/frame.c:176-185 | a header printed for a length from 2^63 on is refused by the parser |
| FrameHeader.FirstByteBits | src/core/frame.c:88-94 | packing and unpacking the first byte are inverses |
| FrameHeader.ReadBE | src/core/frame.c:13-18 | the shift loop reads the big-endian number |
| FrameHeader.WriteBE | src/core/frame.c:20-23 | the shift loop writes the number in big-endian form, and nothing else |
| FrameHeader.ParseLen16 | src/core/frame.c:28-38 | the verdict, value and width of a 16-bit length |
| FrameHeader.ParseLen64 | src/core/frame.c:41-62 | the verdict, value and width of a 64-bit length, top bit and minimality included |
| FrameHeader.FillMaskKey | src/core/frame.c:77-81 | the four key bytes, or zeros |
| FrameHeader.DecodeLen | src/core/frame.c:65-74 | verdict, value and width of each of the three length forms |
| FrameHeader.UnpackB0 | src/core/frame.c:88-94 | the flags and the opcode are those that `Unpacked` relates to the byte |
| FrameHeader.HeaderFrom | src/core/frame.c:98-105 | the whole header, key included, from the bytes |
| FrameHeader.ParseMeta | src/core/frame.c:109-118 | the verdict on the bytes so far, and on success the fields that the header is filled from |
| FrameHeader.ParseHeader | src/core/frame.c:120-133 | the verdict and header of the method are those of the specification |
| FrameHeader.BuildLen | src/core/frame.c:148-161 | the shortest length field, and the index behind it |
| FrameHeader.AppendMask | src/core/frame.c:164-170 | the mask flag set, whatever it was, and the key behind the length field |
| FrameHeader.BuildHeader | src/core/frame.c:176-185 | for every length below 2^64: 0 and no change when it does not fit, else exactly the printed header, which is the one wire form for lengths below 2^63 |
| Mask.MaskInPlace | src/core/mask.c:47-58 | for every address, length and key, lead, words and tail together combine byte i with key byte i mod 4 and touch nothing else |
| Mask.MaskInvolution | src/core/mask.c:22-24 | masking twice restores the data |
| Mask.RotatedKeyWord | src/core/mask.c:17-19 | byte b of the key word rotated by r bytes is key byte (r + b) mod 4 |
| Mask.RotateBytes | src/core/mask.c:17-19 | rotating a loaded word swaps its low and high byte strings |
| Mask.WordIsBytes | src/core/mask.c:37-45 | combining two loaded words is combining their bytes |
| Mask.KeyWord | src/core/mask.c:9-15 | the word is the key repeated twice |
| Mask.MaskLead | src/core/mask.c:27-34 | stops at an 8-byte boundary or at the end, with exactly the bytes before it masked |
| Mask.MaskWord | src/core/mask.c:39-42 | load, combine, store: eight bytes masked |
| Mask.MaskWords | src/core/mask.c:37-45 | masks whole words until fewer than eight bytes are left |
| Mask.MaskTail | src/core/mask.c:56-57 | masks the bytes after the last whole word and nothing else |
| Mask.RotatedKey | src/core/mask.c:52-52 | the rotated word starts at the key byte of the current index |
| Utf8.ValidIsWellFormed | src/core/utf8.c:113-116 | the validator accepts exactly the concatenations of the encodings of Unicode scalar values |
| Utf8.DecodingIsUnique | src/core/utf8.c:113-116 | two sequences of scalar values with the same encoding are the same sequence |
| Utf8.FeedIsViable | src/core/utf8.c:101-107 | fail-fast exactness: the feed succeeds exactly on prefixes of well-formed strings |
| Utf8.FeedConcat | src/core/utf8.c:101-107 | feeding a then b is feeding a + b, and a refusal in a is final |
| Utf8.FeedReachable | src/core/utf8.c:81-99 | in every reachable state at most three bytes are due and the range of the next lies within the continuation bytes |
| Utf8.AcceptsScalar | src/core/utf8.c:15-78 | the automaton accepts the form of every scalar and ends at a boundary |
| Utf8.DecodeIsScalar | src/core/utf8.c:15-93 | what it accepts up to a boundary starts with the form of a scalar: no surrogate, no overlong form, nothing above U+10FFFF |
| Utf8.CompletionWorks | src/core/utf8.c:81-93 | from every reachable state some bytes lead to a boundary |
| Utf8.IsValid | src/core/utf8.c:113-116 | the method accepts exactly the well-formed strings |
| Utf8.State.SetSeq | src/core/utf8.c:7-11 | sets the count and the range of the next byte |
| Utf8.State.Reset | src/sdk/conn.c:121-122 | back to the start state, whatever came before |
| Utf8.State.LeadAscii | src/core/utf8.c:30-32 | no bytes due |
| Utf8.State.Lead2Byte | src/core/utf8.c:35-37 | one byte due, in the general range |
| Utf8.State.Lead3Byte | src/core/utf8.c:15-19 | two bytes due, the range shutting out overlong forms and surrogates |
| Utf8.State.Lead4Byte | src/core/utf8.c:23-27 | three bytes due, the range shutting out overlong forms and values above U+10FFFF |
| Utf8.State.TryAscii | src/core/utf8.c:40-45 | takes exactly the ASCII bytes |
| Utf8.State.Try2Byte | src/core/utf8.c:47-52 | takes exactly C2 to DF |
| Utf8.State.Try3Byte | src/core/utf8.c:54-59 | takes exactly E0 to EF |
| Utf8.State.Try4Byte | src/core/utf8.c:61-66 | takes exactly F0 to F4 |
| Utf8.State.TryLead | src/core/utf8.c:72-73 | entry k of the table takes exactly its own lead bytes and sets the range that the lead byte calls for |
| Utf8.State.ClassifyLead | src/core/utf8.c:70-78 | the table accepts exactly the lead bytes |
| Utf8.State.FeedCont | src/core/utf8.c:85-93 | a byte in range counts down and widens the range, any other changes nothing |
| Utf8.State.FeedByte | src/core/utf8.c:95-99 | the byte is accepted exactly when the automaton accepts it, and a refused byte leaves the state alone |
| Utf8.State.FeedBytes | src/core/utf8.c:101-107 | state and verdict of the automaton on the bytes |
| Utf8.State.Complete | src/core/utf8.c:109-111 | true exactly between two sequences |
| Mem.MemMove | src/platform/mem.c:45-53 | the bytes moved as if through a temporary, for every overlap, and nothing else changed |
| Mem.CopyForward | src/platform/mem.c:7-11 | a move down, bytes in ascending order: as if through a temporary, for every overlap |
| Mem.CopyBackward | src/platform/mem.c:13-17 | a move up, bytes in descending order: as if through a temporary, for every overlap |
| Mem.MemCopy | src/platform/mem.c:35-41 | the bytes copied between two buffers, and nothing else changed |
| Echo.EchoEndToEnd | src/sdk/server.c:105-182 | whatever bytes reach the server in whatever reads, a client machine fed the server's output in any chunks reports exactly the answers and so the same message sequence |
| Echo.EchoRoundTrip | src/sdk/server.c:105-182 | the reading of the server output by a client consists of exactly the answers, and its messages are those sent to the server |
| Echo.EchoOutput | src/sdk/server.c:105-182 | the output of a session is exactly the canonical unmasked reply frames, in order, to the events up to the first Close or error |
| Echo.CloseEchoed | src/sdk/server.c:129-140 | end to end on the machines: a client that sends a Close reads back the same code if it is in the valid ranges, 1000 for the three reserved codes and 1002 otherwise, and is CLOSED, whatever the reads and chunks |
| Echo.CloseAnswered | src/sdk/server.c:129-140 | all that the server writes for such a Close is the one reply to it |
| Echo.ReturnedClose | src/sdk/server.c:129-131 | the reply to a Close carries its code back, by the same numbers |
| Echo.ReturnedOthers | src/sdk/server.c:118-141 | an error is answered with 1002, a ping with a pong and a message with a message of the same data, a pong with nothing |
| Echo.ControlReplyBytes | src/sdk/server.c:118-141 | the replies to a Close, an error and a ping, byte for byte |
| Echo.UpToFinalIs | src/sdk/server.c:134-158 | the answered events are a prefix of those reported, all of them unless one is final, and only the last can be final: at most one Close goes out, at the end |
| Echo.SessionAnswers | src/sdk/server.c:167-182 | from any serving state and for any reads: exactly the replies to the events up to the first final one, kept iff there is none, and then in the state that receiving alone leads to |
| Echo.FeedAnswers | src/sdk/server.c:176-182 | one read: exactly the replies to its events up to the first final one, and kept iff there is none |
| Echo.FeedTurn | src/sdk/server.c:167-173 | one slice: progress, the event's reply, and the rest of the read |
| Echo.SliceFeeds | src/sdk/server.c:161-173 | when the loop goes on, input was consumed or an event handled, and the connection is drained and as sound as before: this is why it ends, on every connection a run can produce |
| Echo.FeedAppends | src/sdk/server.c:105-114 | output is only ever appended |
| Echo.ServeRecv | src/sdk/server.c:161-173 | a receive on a serving connection makes progress, and leaves OPEN only with a Close or error event pending |
| Echo.DrainReplies | src/sdk/server.c:118-158 | draining an event writes exactly its reply and goes on unless it is final |
| Echo.ReplyProper | src/sdk/server.c:20-21 | every reply fits the transmit buffer, is a frame a server may send, and carries the data back |
| Echo.ReadReportable | src/sdk/server.c:20-21 | every event of a reading with the server's buffer can be answered |
| Echo.ClientReads | src/sdk/conn.c:353-377 | a client with twice the server's buffer reads the replies as the answers |
| Echo.MessagesReturn | src/sdk/server.c:118-126 | the messages among the answers are the messages received |
| EchoDriver.Client.WriteAll | src/sdk/server.c:58-67 | true iff the socket takes all bytes; what it takes is written |
| EchoDriver.Client.ReplyOpen | src/sdk/server.c:105-107 | the staged bytes are written; kept iff there are any and the socket takes them all; otherwise what it takes is written and the connection dropped |
| EchoDriver.Client.ReplyClose | src/sdk/server.c:110-114 | the staged bytes, or as many as the socket takes, are written; never kept |
| EchoDriver.Client.HandleDataEvent | src/sdk/server.c:118-126 | message and ping handled as specified, any other event left alone; if a write fails, the output is the specified one up to there and the connection is dropped |
| EchoDriver.Client.HandleCloseEvent | src/sdk/server.c:134-141 | Close and error handled as specified, up to a failing write |
| EchoDriver.Client.HandleEvent | src/sdk/server.c:144-148 | connection, output and verdict of handling an event, up to a failing write |
| EchoDriver.Client.DrainEvents | src/sdk/server.c:152-158 | the polling loop handles the one pending event and ends; up to a failing write |
| EchoDriver.Client.FeedStep | src/sdk/server.c:167-173 | one slice in any state: receive, drain, advance; given up when an event ends it, when it is stalled or when a write fails |
| EchoDriver.Client.FeedFrames | src/sdk/server.c:176-182 | on every connection that a run can produce the loop terminates; connection, output and verdict are those of the session specification, stalls included, and wherever a write fails the output is that specification cut there and the connection is dropped |
| Sha1.Sha1 | src/protocol/sha1.c:107-119 | for every length below 2^61, the digest is the big-endian bytes of the fold of the compression function, from the standard initial words, over the 64-byte blocks of the standard padded message; a compression that changes nothing gives 67 45 23 01 EF CD AB 89 98 BA DC FE 10 32 54 76 C3 D2 E1 F0 for every message |
| Sha1.Emit | src/protocol/sha1.c:98-105 | the twenty bytes of the five words, each big-endian |
| Sha1.InitialBytes | src/protocol/sha1.c:108-108 | the initial words, as bytes |
| Sha1.WordBytesInjective | src/protocol/sha1.c:98-105 | different final words have different digests |
| Sha1.Sha1Blocks | src/protocol/sha1.c:68-73 | the loop folds the whole blocks and leaves fewer than 64 bytes |
| Sha1.Pad | src/protocol/sha1.c:88-96 | the tail buffer holds the last one or two blocks of the padded message |
| Sha1.PutLen | src/protocol/sha1.c:81-85 | the bit length, big-endian, in the last eight bytes |
| Sha1.Fill | src/protocol/sha1.c:75-78 | zeros in the range and nothing else |
| Sha1.TailIsPadding | src/protocol/sha1.c:88-96 | data blocks and tail together are the padded message, in both cases of the tail |
| Sha1.PaddedBlocks | src/protocol/sha1.c:88-96 | the padding fills whole blocks with the fewest zeros |
| Sha1.PaddingInjective | src/protocol/sha1.c:81-96 | different messages have different padded forms |
| Base64.DecodeIsInverse | src/protocol/base64.c:7-41 | a strict reference decoder yields s exactly on the encoding of s: inverse, and one form per byte string |
| Base64.EncodeLength | src/protocol/base64.c:30-41 | four characters per three bytes begun |
| Base64.EncodePadding | src/protocol/base64.c:15-28 | equals signs (61) stand at the end only, as many as the length calls for |
| Base64.EndsPadded | src/protocol/base64.c:15-28 | an encoding that is not of whole groups ends in an equals sign |
| Base64.EncodeTo | src/protocol/base64.c:30-41 | the loop and tail write exactly the encoding and a zero byte, and nothing behind them |
| Base64.EncodeGroups | src/protocol/base64.c:30-36 | the loop writes exactly the encoding of the whole groups of three, touches nothing else and leaves at most two bytes |
| Base64.PutQuad | src/protocol/base64.c:7-12 | four characters at an offset and nothing else |
| Base64.PutTail | src/protocol/base64.c:15-23 | one or two bytes left are written as their padded encoding |
| Bytes.XorInvolution | src/core/mask.c:22-24 | combining twice with one value restores the other |
| Bytes.XorLE | src/core/mask.c:39-42 | the bytes of a combined word are the combined bytes |
| Bytes.OrDisjoint | src/core/mask.c:12-12 | or-ing a shifted byte above a smaller number adds it |
| Bits.XorIsBitwise | src/core/mask.c:23-23 | the exclusive or used by the model is the machine operation on 8-bit words |
| Bits.MaskIsBitwise | src/core/mask.c:22-24 | masking on machine bytes: byte i of the masked data is `data[i] ^ key[i % 4]` |
| Bits.FlagBits | src/core/frame.c:88-94 | the flag tests by division and parity in the model are the tests of FIN and the three RSV bits by mask |
| Bits.ControlBit | src/sdk/conn.c:61-63 | the control test by division and parity is the test by mask |
| Bits.FieldBits | src/core/frame.c:88-94 | the remainders in the model are the masks for the opcode and the 7-bit length |

## Left out

- Sockets, epoll, accept, descriptors, the HTTP stage and the slot table of `src/sdk/server.c`, and `src/platform/sys.c`: kernel I/O. A socket is the number of bytes it takes before a write fails; the theorems of `Echo` about whole sessions are about sockets that take everything.
- `src/protocol/handshake.c`: string scanning and fixed text.
- The random key of a client is an optional parameter: any four bytes, or a failure of the generator.
- Sha1.Sha1: the compression function is a parameter `f`, any function on five words and a block; nothing is claimed about its own steps.
- `ws_memset` and `ws_memcmp` of `src/platform/mem.c`; the first appears as the reset of the UTF-8 state and as zero fill.
- Wrap-around of `size_t`: buffers and lengths are below 2^63, so sums never wrap.
- The size check of `ws_conn_init`, which the build makes constant.
- Pointers into the message buffer are offsets, and received chunks are sequences, since the code only reads them; a chunk that overlaps the message buffer is not modelled.
- A client that receives masked frames accepts them, as the code does; RFC 6455 asks it to fail.
- Data sent and the output buffer are different arrays; the debug build of `ws_memcpy` traps on overlap.
