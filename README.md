# obdkt connection core, modelled in Dafny

This project models `OBD2Connection`, the Kotlin class in obdkt that talks to an
ELM327 OBD-II adapter over a serial port. It covers:

- how raw adapter replies are rendered (`makeVisible`): carriage return, line
  feed and tab become `\r`, `\n` and `\t`, and every other code point from 0x00
  to 0x1F becomes `\x` and two upper-case hex digits;
- how requests are framed (`writeRequest`): the request's US-ASCII bytes and one
  carriage return go to the port;
- how replies are read (`readResponse`): every pending byte is taken, decoded as
  US-ASCII and rendered;
- the five-step initialisation handshake (`initELM327`): ATZ, ATE0, ATL0, ATS0
  and ATSP0, in that order, stopping at the first step that gets no answer or
  an answer its validator rejects;
- the connection's state machine: the `isConnected` flag, the request and
  response channels (queues with a closed-for-send flag), and the serial port
  (open flag, bytes received but not yet read, and a log of every byte written).
  Its operations are `connect`, one iteration of `communicationLoop`, `trySend`,
  `tryGetResponse` and `closeConnection`.

The model has four layers:

- `Ascii` covers bytes and the US-ASCII charset. Bytes of 0x80 and above decode
  to U+FFFD, and characters outside 7 bits encode to `?`, as the JVM charset
  does.
- `Escape` has two definitions of the rendering. One is the source's chain of
  four replacement passes. The other is an independent per-character escape
  table. They are proved equal.
- `Elm327Init` is the handshake as a function of the bytes each step finds at
  the port, with its fail-fast properties.
- `ConnectionSpec` holds the connection's state and operations as values.
  `Obd2` holds the classes `SerialPort` and `Obd2Connection`, whose methods
  update fields in place. Each method is proved to produce exactly the result
  and new state of the matching `ConnectionSpec` or `Elm327Init` function
  (`RunInitStep` against `Elm327Init.Accepted`, `InitElm327` against
  `Elm327Init.Handshake`), or, for the `SerialPort` methods, an explicitly
  stated new state. The lemmas proved about those functions (FIFO order,
  nothing else changes, idempotence) therefore carry over to the methods.

Environment inputs are parameters:

- `OpenPort(succeeds)` and `Connect(openOk, …)` take whether the device opens.
- `Connect(…, configFault, …)` takes whether configuring the port throws.
- `replies[i]` is the bytes the adapter sends during step `i`'s settle delay.
- `SerialPort.Receive(bytes)` is the adapter sending bytes at any other time.

Three behaviours of the code that the model keeps as written:

- `tryGetResponse` still hands out responses buffered before `closeConnection`.
  Closing a Kotlin channel only stops senders.
- A failed handshake leaves the port open. `connect` returns without closing it
  (OBD2Connection.kt lines 39-42). Only the exception path closes the port.
- Bytes outside 7 bits are not excluded from the model. They decode to U+FFFD,
  and the rendering leaves that character alone.

## Model

| member | source | states |
|---|---|---|
| Ascii.Decode | src/main/kotlin/me/gavin/obdlayer/OBD2Connection.kt:114 | one character per byte, in order; a byte below 0x80 keeps its code and any other byte becomes U+FFFD |
| Ascii.Encode | src/main/kotlin/me/gavin/obdlayer/OBD2Connection.kt:124 | one byte per character, in order; a 7-bit character keeps its code and any other becomes `?` (0x3F) |
| Ascii.DecodeEncode | src/main/kotlin/me/gavin/obdlayer/OBD2Connection.kt:124 | decoding the bytes written for ASCII text gives the text back |
| Ascii.EncodeDecode | src/main/kotlin/me/gavin/obdlayer/OBD2Connection.kt:114 | encoding the text read from 7-bit bytes gives the bytes back |
| Ascii.DecodeAsciiIffSevenBit | src/main/kotlin/me/gavin/obdlayer/OBD2Connection.kt:114 | decoded text is pure ASCII if and only if every byte read had 7 bits |
| Ascii.EncodeAppend | src/main/kotlin/me/gavin/obdlayer/OBD2Connection.kt:124 | encoding a concatenation is the concatenation of the encodings |
| Escape.ReplaceChar | src/main/kotlin/me/gavin/obdlayer/OBD2Connection.kt:140-142 | one literal replacement pass; no contract of its own: ReplaceCharAppend, ReplaceCharSingle and ReplaceCharAbsent (helpers used by the rows below) show it works character by character and leaves a text without the target unchanged |
| Escape.ReplaceControls | src/main/kotlin/me/gavin/obdlayer/OBD2Connection.kt:143 | the regular-expression pass; no contract of its own: its behaviour is carried by MakeVisibleChar and MakeVisibleIsEscapeAll |
| Escape.MakeVisible | src/main/kotlin/me/gavin/obdlayer/OBD2Connection.kt:138-144 | the source's chain of the four passes, in order; no contract of its own: MakeVisibleIsEscapeAll, MakeVisibleNoControl, MakeVisibleIdentity and MakeVisibleIdempotent state its properties |
| Escape.Hex2 | src/main/kotlin/me/gavin/obdlayer/OBD2Connection.kt:143 | exactly two upper-case hex digits whose value is the given byte |
| Escape.EscapeChar | src/main/kotlin/me/gavin/obdlayer/OBD2Connection.kt:140-143 | the escape of one character has no control character; a character is kept as itself exactly when it is not a control; CR, LF and TAB become `\r`, `\n` and `\t`; any other control becomes `\x` and two upper-case hex digits denoting its code |
| Escape.MakeVisibleAppend | src/main/kotlin/me/gavin/obdlayer/OBD2Connection.kt:138-144 | rendering a concatenation renders each part separately |
| Escape.MakeVisibleChar | src/main/kotlin/me/gavin/obdlayer/OBD2Connection.kt:138-144 | the four passes applied to one character give that character's escape; escapes written by an earlier pass are not rewritten by a later one |
| Escape.MakeVisibleIsEscapeAll | src/main/kotlin/me/gavin/obdlayer/OBD2Connection.kt:138-144 | the chain of four passes equals the per-character escape table applied to each character in order |
| Escape.EscapeAllNoControl | src/main/kotlin/me/gavin/obdlayer/OBD2Connection.kt:140-143 | the escape table's output has no code point from 0x00 to 0x1F |
| Escape.EscapeAllLength | src/main/kotlin/me/gavin/obdlayer/OBD2Connection.kt:140-143 | the escape table never shortens a text, and keeps its length only when the text had no control character |
| Escape.EscapeAllOfPrintable | src/main/kotlin/me/gavin/obdlayer/OBD2Connection.kt:140-143 | the escape table leaves a text without control characters unchanged |
| Escape.MakeVisibleNoControl | src/main/kotlin/me/gavin/obdlayer/OBD2Connection.kt:138-144 | the rendered text has no code point from 0x00 to 0x1F |
| Escape.MakeVisibleIdentity | src/main/kotlin/me/gavin/obdlayer/OBD2Connection.kt:138-144 | rendering leaves a text unchanged if and only if it has no control character |
| Escape.MakeVisibleIdempotent | src/main/kotlin/me/gavin/obdlayer/OBD2Connection.kt:138-144 | rendering twice equals rendering once |
| Escape.MakeVisibleNotInjective | src/main/kotlin/me/gavin/obdlayer/OBD2Connection.kt:138-144 | backslashes are not escaped, so a carriage return and the two characters `\` `r` render to the same text |
| Escape.MakeVisiblePrompt | src/main/kotlin/me/gavin/obdlayer/OBD2Connection.kt:140 | the adapter's prompt, two carriage returns and `>`, renders as `\r\r>` |
| Escape.MakeVisibleReply | src/main/kotlin/me/gavin/obdlayer/OBD2Connection.kt:138-144 | a printable reply followed by two carriage returns and the `>` prompt renders as the reply, `\r\r` and `>` |
| Escape.MakeVisibleExample | src/main/kotlin/me/gavin/obdlayer/OBD2Connection.kt:138-144 | the adapter's answer to request 0100, `41 00 BE 3B B0 11` with two carriage returns and the prompt, renders with its carriage returns written as `\r` |
| Elm327Init.InitSteps | src/main/kotlin/me/gavin/obdlayer/OBD2Connection.kt:60-66 | the five (command, validator) pairs in their fixed order; CommandsUpTo, Handshake and WellBehavedSucceeds state the order in which they are written |
| Elm327Init.Contains | src/main/kotlin/me/gavin/obdlayer/OBD2Connection.kt:61-65 | Kotlin's substring test; no contract of its own: ContainsIffOccurs relates it to an occurs-at-some-position definition, ContainsAppend and MissingFirstCharNotContained follow |
| Elm327Init.Accepts | src/main/kotlin/me/gavin/obdlayer/OBD2Connection.kt:61-65 | ATZ's validator needs both "ELM327" and ">" somewhere in the answer, the other four need "OK"; no contract of its own: ReplyAccepted and RejectedEchoOffFails state when it accepts and rejects |
| Elm327Init.CommandsUpTo | src/main/kotlin/me/gavin/obdlayer/OBD2Connection.kt:60-66 | the first n commands of the fixed list ATZ, ATE0, ATL0, ATS0, ATSP0, in that order |
| Elm327Init.ContainsIffOccurs | src/main/kotlin/me/gavin/obdlayer/OBD2Connection.kt:61-65 | the validators' substring test holds if and only if the substring occurs at some position |
| Elm327Init.Accepted | src/main/kotlin/me/gavin/obdlayer/OBD2Connection.kt:72-76 | the verdict of step i on the bytes it finds: no bytes means `readResponse` gives null and the step fails; otherwise the step's validator is applied to the rendered decoding; no contract of its own: RunInitStep, IdentityReplyAccepted, OkReplyAccepted and UnknownReplyRejected state when it holds |
| Elm327Init.Passes | src/main/kotlin/me/gavin/obdlayer/OBD2Connection.kt:72-76 | step i passes on the bytes the run supplies to it; no contract of its own: FirstFailure, Handshake, HandshakeStopsAt and HandshakeFailsAt rest on it |
| Elm327Init.FirstFailure | src/main/kotlin/me/gavin/obdlayer/OBD2Connection.kt:68-83 | the index of the first step from i on that does not pass: every step before it passes, and it fails unless it is past the last step |
| Elm327Init.Handshake | src/main/kotlin/me/gavin/obdlayer/OBD2Connection.kt:58-86 | the commands written are a non-empty prefix of the fixed list; success holds if and only if all five steps pass, and then all five were written; on failure the last command written is the failing step's and every earlier step passed |
| Elm327Init.HandshakeStopsAt | src/main/kotlin/me/gavin/obdlayer/OBD2Connection.kt:76-79 | when steps 0..k-1 pass and step k fails, the run fails having written exactly the first k+1 commands |
| Elm327Init.HandshakeFailsAt | src/main/kotlin/me/gavin/obdlayer/OBD2Connection.kt:76-79 | a run that reached step i with every earlier step passing, and fails step i, fails having written exactly the first i+1 commands |
| Elm327Init.HandshakeAllPass | src/main/kotlin/me/gavin/obdlayer/OBD2Connection.kt:68-85 | when all five steps pass, the run succeeds having written all five commands |
| Elm327Init.FirstFailureIgnoresLaterReplies | src/main/kotlin/me/gavin/obdlayer/OBD2Connection.kt:76-79 | the first failing step depends only on the bytes seen up to and including it |
| Elm327Init.HandshakeIgnoresLaterReplies | src/main/kotlin/me/gavin/obdlayer/OBD2Connection.kt:76-79 | fail-fast: answers the adapter would have given to steps never run do not change the outcome |
| Elm327Init.ContainsAppend | src/main/kotlin/me/gavin/obdlayer/OBD2Connection.kt:61-65 | a substring of a text is still contained after more text is appended |
| Elm327Init.MissingFirstCharNotContained | src/main/kotlin/me/gavin/obdlayer/OBD2Connection.kt:61-65 | a text that lacks the substring's first character does not contain the substring |
| Elm327Init.ReplyResponse | src/main/kotlin/me/gavin/obdlayer/OBD2Connection.kt:108-119 | reading a printable ASCII answer followed by the prompt yields the answer, then `\r\r>` |
| Elm327Init.ReplyAccepted | src/main/kotlin/me/gavin/obdlayer/OBD2Connection.kt:61-65 | ATZ's validator accepts such an answer when it names ELM327, since the prompt supplies `>`; the other validators accept it when it contains OK |
| Elm327Init.IdentityReplyAccepted | src/main/kotlin/me/gavin/obdlayer/OBD2Connection.kt:61 | ATZ's validator accepts an identification naming ELM327 followed by the prompt |
| Elm327Init.OkReplyAccepted | src/main/kotlin/me/gavin/obdlayer/OBD2Connection.kt:62-65 | each of the four setting commands accepts `OK` followed by the prompt |
| Elm327Init.UnknownReplyRejected | src/main/kotlin/me/gavin/obdlayer/OBD2Connection.kt:62-65 | each of the four setting commands rejects `?` followed by the prompt |
| Elm327Init.WellBehavedSucceeds | src/main/kotlin/me/gavin/obdlayer/OBD2Connection.kt:58-86 | an adapter that identifies itself and acknowledges each setting passes, with all five commands written in order |
| Elm327Init.RejectedEchoOffFails | src/main/kotlin/me/gavin/obdlayer/OBD2Connection.kt:58-86 | an adapter that identifies itself and answers ATE0 with `?` fails the run after ATZ and ATE0, for every sequence of replies it would have given to the later commands |
| Elm327Init.SilentAdapterFails | src/main/kotlin/me/gavin/obdlayer/OBD2Connection.kt:72-79 | an adapter that never answers fails the run with only ATZ written |
| ConnectionSpec.Initial | src/main/kotlin/me/gavin/obdlayer/OBD2Connection.kt:11-20 | a new connection is not connected, has both queues empty and open, and holds the given port |
| ConnectionSpec.Frame | src/main/kotlin/me/gavin/obdlayer/OBD2Connection.kt:124 | a request's frame is its US-ASCII bytes followed by exactly one 0x0D, one byte longer than the request |
| ConnectionSpec.FramesAppend | src/main/kotlin/me/gavin/obdlayer/OBD2Connection.kt:121-126 | writing two lists of requests one after the other logs their frames one after the other |
| ConnectionSpec.FramesSnoc | src/main/kotlin/me/gavin/obdlayer/OBD2Connection.kt:121-126 | writing one more request extends the log by exactly its frame |
| ConnectionSpec.WriteRequest | src/main/kotlin/me/gavin/obdlayer/OBD2Connection.kt:121-126 | the write log gains the request's bytes and one carriage return at its end; the open flag and the pending bytes are unchanged |
| ConnectionSpec.ReadResponse | src/main/kotlin/me/gavin/obdlayer/OBD2Connection.kt:108-119 | with bytes pending, all of them are consumed and their rendered decoding is returned; with none, nothing is returned and the port is unchanged |
| ConnectionSpec.Arrivals | src/main/kotlin/me/gavin/obdlayer/OBD2Connection.kt:68-74 | the first step finds the bytes already pending plus its reply; each later step finds only its own reply |
| ConnectionSpec.Arrive | src/main/kotlin/me/gavin/obdlayer/OBD2Connection.kt:109-112 | the adapter's bytes join the end of the pending bytes; the open flag and the write log are unchanged |
| ConnectionSpec.Connect | src/main/kotlin/me/gavin/obdlayer/OBD2Connection.kt:27-55 | a port that does not open gives false and changes nothing; a configuration fault gives false and closes the port; otherwise the handshake runs and the result is true exactly when it succeeds; the connected flag becomes true only then; the queues are untouched; after a handshake the port is open, drained, and has logged exactly the handshake's frames |
| ConnectionSpec.Step | src/main/kotlin/me/gavin/obdlayer/OBD2Connection.kt:89-105 | the loop has ended exactly when the connection is not connected; a request is written exactly when one is queued; a step never changes the connected flag, the closed flags or the port's open flag; the response queue gains one entry at its tail when a response is received and is otherwise unchanged; StepWritesHead, StepReceives, StepIdle and StepKeepsResponsesVisible give the rest |
| ConnectionSpec.Steps | src/main/kotlin/me/gavin/obdlayer/OBD2Connection.kt:90-104 | any number of iterations of the `while (isConnected)` loop keep the connected flag, the closed flags and the port's open flag, and only ever add responses after those already queued |
| ConnectionSpec.StepWritesHead | src/main/kotlin/me/gavin/obdlayer/OBD2Connection.kt:89-93 | a connected step with a queued request removes exactly the head and writes it with a trailing carriage return; nothing else changes |
| ConnectionSpec.StepReceives | src/main/kotlin/me/gavin/obdlayer/OBD2Connection.kt:96-102 | a connected step with no queued request and pending bytes consumes all of them and queues their rendering as one entry at the tail of the responses |
| ConnectionSpec.StepIdle | src/main/kotlin/me/gavin/obdlayer/OBD2Connection.kt:96-102 | a connected step with no queued request and no pending bytes changes nothing |
| ConnectionSpec.StepKeepsResponsesVisible | src/main/kotlin/me/gavin/obdlayer/OBD2Connection.kt:96-102 | a step keeps the invariant that no queued response holds a control character, and any response it receives holds none |
| ConnectionSpec.DrainInOrder | src/main/kotlin/me/gavin/obdlayer/OBD2Connection.kt:89-93 | n steps over n or more queued requests write the first n, in queue order, and leave the responses and pending bytes alone |
| ConnectionSpec.TrySend | src/main/kotlin/me/gavin/obdlayer/OBD2Connection.kt:147-149 | true exactly while the request queue is open, and then the request is at its tail; false leaves everything unchanged |
| ConnectionSpec.TryGetResponse | src/main/kotlin/me/gavin/obdlayer/OBD2Connection.kt:151-153 | the head of the response queue, which is removed, or nothing and no change when the queue is empty |
| ConnectionSpec.Close | src/main/kotlin/me/gavin/obdlayer/OBD2Connection.kt:155-166 | not connected, both queues closed and the port closed; queue contents, pending bytes and the write log kept |
| ConnectionSpec.CloseIdempotent | src/main/kotlin/me/gavin/obdlayer/OBD2Connection.kt:155-166 | closing twice gives the same state as closing once |
| ConnectionSpec.ClosedRejects | src/main/kotlin/me/gavin/obdlayer/OBD2Connection.kt:147-166 | after closing, `trySend` is refused and changes nothing, and the loop has ended |
| ConnectionSpec.SendAllEnqueues | src/main/kotlin/me/gavin/obdlayer/OBD2Connection.kt:147-149 | several sends on an open queue append the requests at the tail in the order sent |
| ConnectionSpec.SentRequestsWrittenInOrder | src/main/kotlin/me/gavin/obdlayer/OBD2Connection.kt:89-93 | requests sent on an empty queue reach the write log in the order sent, each framed; the queue ends empty and the responses are untouched |
| ConnectionSpec.TakeResponsesInOrder | src/main/kotlin/me/gavin/obdlayer/OBD2Connection.kt:151-153 | n calls of `tryGetResponse` return the first n responses in queue order and remove exactly those |
| ConnectionSpec.ConnectWellBehaved | src/main/kotlin/me/gavin/obdlayer/OBD2Connection.kt:27-55 | with a well-behaved adapter, a fresh connection becomes connected, with the five commands logged and the channels empty and open |
| ConnectionSpec.Exchange | src/main/kotlin/me/gavin/obdlayer/OBD2Connection.kt:89-119 | on an idle connected connection, sending 0100, one loop step, the adapter's answer and another step make `tryGetResponse` yield the rendered answer |
| ConnectionSpec.RoundTrip | src/main/kotlin/me/gavin/obdlayer/OBD2Connection.kt:27-153 | the same exchange right after a successful `connect` on a fresh connection; it holds for the model, which has no `queryManager` consumer: in the source that consumer normally takes this first response (see "## Left out") |
| Obd2.SerialPort.constructor | src/main/kotlin/me/gavin/obdlayer/OBD2Connection.kt:11 | a port that is closed, has written nothing, and holds the given pending bytes |
| Obd2.SerialPort.OpenPort | src/main/kotlin/me/gavin/obdlayer/OBD2Connection.kt:29 | reports the device's answer and sets the open flag only on success |
| Obd2.SerialPort.BytesAvailable | src/main/kotlin/me/gavin/obdlayer/OBD2Connection.kt:109 | the number of pending bytes |
| Obd2.SerialPort.ReadBytes | src/main/kotlin/me/gavin/obdlayer/OBD2Connection.kt:111-112 | the oldest n pending bytes, which are removed |
| Obd2.SerialPort.WriteBytes | src/main/kotlin/me/gavin/obdlayer/OBD2Connection.kt:125 | the bytes are appended to the write log; nothing else changes |
| Obd2.SerialPort.ClosePort | src/main/kotlin/me/gavin/obdlayer/OBD2Connection.kt:164 | the open flag is cleared; nothing else changes |
| Obd2.SerialPort.Receive | src/main/kotlin/me/gavin/obdlayer/OBD2Connection.kt:109-112 | the adapter's bytes are appended to the pending bytes |
| Obd2.Obd2Connection.constructor | src/main/kotlin/me/gavin/obdlayer/OBD2Connection.kt:11-20 | the connection's state is the initial one over the given port |
| Obd2.Obd2Connection.IsConnected | src/main/kotlin/me/gavin/obdlayer/OBD2Connection.kt:15 | reads the `isConnected` field; it says whether the loop runs (ConnectionSpec.Step exits exactly when it is false) |
| Obd2.Obd2Connection.WriteRequest | src/main/kotlin/me/gavin/obdlayer/OBD2Connection.kt:121-126 | the port's new state is the one `ConnectionSpec.WriteRequest` gives |
| Obd2.Obd2Connection.ReadResponse | src/main/kotlin/me/gavin/obdlayer/OBD2Connection.kt:108-119 | the result and the port's new state are the ones `ConnectionSpec.ReadResponse` gives |
| Obd2.Obd2Connection.RunInitStep | src/main/kotlin/me/gavin/obdlayer/OBD2Connection.kt:69-79 | one handshake step passes exactly when its validator accepts the bytes then available; the port is drained and its log gains the command's frame |
| Obd2.Obd2Connection.InitElm327 | src/main/kotlin/me/gavin/obdlayer/OBD2Connection.kt:58-86 | the loop's verdict and commands written equal `Elm327Init.Handshake` of the bytes each step found; the port's log gains exactly their frames and the port ends drained |
| Obd2.Obd2Connection.Connect | src/main/kotlin/me/gavin/obdlayer/OBD2Connection.kt:27-55 | the result and the connection's new state are the ones `ConnectionSpec.Connect` gives |
| Obd2.Obd2Connection.CommunicationStep | src/main/kotlin/me/gavin/obdlayer/OBD2Connection.kt:89-105 | the outcome and the new state are the ones `ConnectionSpec.Step` gives |
| Obd2.Obd2Connection.TrySend | src/main/kotlin/me/gavin/obdlayer/OBD2Connection.kt:147-149 | the result and the new state are the ones `ConnectionSpec.TrySend` gives |
| Obd2.Obd2Connection.TryGetResponse | src/main/kotlin/me/gavin/obdlayer/OBD2Connection.kt:151-153 | the result and the new state are the ones `ConnectionSpec.TryGetResponse` gives |
| Obd2.Obd2Connection.CloseConnection | src/main/kotlin/me/gavin/obdlayer/OBD2Connection.kt:155-166 | the new state is the one `ConnectionSpec.Close` gives |

## Left out

- Coroutines and timing are not modelled: the connection scope, `launch`, `cancel`, `delay`, `withTimeoutOrNull` and `select`'s `onTimeout`. The loop is one deterministic step, a queued request taken first, else a poll of the port. A timed-out read is a step that finds no bytes.
- Obd2.Obd2Connection.CommunicationStep models one iteration; the `while (isConnected)` loop is `ConnectionSpec.Steps` over a chosen number of iterations, and what follows a `Failed` step (the exception ending the loop's coroutine) is not modelled.
- Obd2.Obd2Connection.Connect: the launch of `communicationLoop` and `queryManager` after success is not modelled. Scheduling decides their effect.
- A successful `connect` after `closeConnection` starts no loop in the source, because the connection scope was cancelled; the model's `Step` would still run on such a connection (writing a request queued before the close, or the `Failed` outcomes for a closed channel), so those states describe iterations the source never performs.
- `queryManager` is not modelled. `connect` launches it (line 46) and it suspends at once in `responseChannel.receive()` (line 133); a Kotlin channel hands a sent element straight to a receiver already waiting, so in the source the first response the loop sends after a successful `connect` normally goes to `queryManager`, which prints it, and the caller's `tryGetResponse` then returns null. The model has no such consumer, so every response, the first included, stays queued for `tryGetResponse`; the round trip that `ConnectionSpec.RoundTrip` states (a response to `0100` reaching the caller) therefore does not match the code for the first response after `connect`. This is read from the text, not executed.
- Serial port configuration is not modelled: baud rate, data bits, parity, timeouts and flow control. Its only visible effect, a possible exception, is the `configFault` parameter.
- Exceptions from `openPort`, `writeBytes` or `readBytes` are not modelled beyond `configFault`.
- The unused hex dump in `readResponse`, all `println` output, and the `getRequestChannel`/`getResponseChannel` accessors are not modelled.
- Reassembly of replies that arrive in pieces is not modelled. The source has none: each poll yields one entry from whatever was pending.
- Obd2.SerialPort.WriteBytes logs bytes whether or not the port is open, and Obd2.SerialPort.BytesAvailable, ConnectionSpec.ReadResponse and ConnectionSpec.Step take the pending bytes whether or not it is open. The model does not say what a closed port does with a write or a read; with jSerialComm, `bytesAvailable()` on a closed port reports -1, so `readResponse` would return null there. A connected connection over a closed port arises when a second `connect` has a configuration fault, and there the model's `Step` can still yield `Received`.
