# haiku-mgmt-agent: a Dafny model

The agent carries its own protocol stack: WebSocket frames, an HTTP/1.1 body reader, a JSON parser and printer, the
binary `AgentMessage`, a retransmitting session protocol, and the bookkeeping of commands and child processes. The
modules here model those parts and prove what they are for. Code that changes state step by step is a class or a method
with loops, each proved equal to a function of its inputs or of its old state; the properties are lemmas about those
functions, over every input, every run or every reachable state.

- `Frames`, `WebSocket`, `Splits`: the RFC 6455 frame parser, the client that reassembles messages, and when the cutting of
  the stream into reads can be seen.
- `Json`, `JsonProofs`, `JsonText`, `JsonUnicode`, `JsonSpelling`, `JsonGrammar`, `JsonCode`: parser and printer, the proof
  that they undo each other, and the grammar of exactly the texts the parser accepts.
- `Calendar`, `Dates`: Gregorian day counting and the two date parsers built on it.
- `Mgs`, `MgsProofs`, `MgsCode`: the binary message and the half-swapped UUID.
- `Outbox`, `LossyLink`, `SessionLink`: the retransmission buffer alone, at work over a channel that loses, repeats and
  reorders, and as part of a session.
- `Session`, `SessionRuns`, `SessionPasses`, `SessionFrames`, `SessionAnswers`, `SessionInput`, `SessionOutput`,
  `SessionEndings`, `SessionCrash`, `SessionCode`: one interactive session, from the handshake to the teardown.
- `Control`: which requests on the control channel start a session.
- `HttpBody`, `HttpCode`: response bodies under the three framings.
- `Commands`, `Exec`, `Runner`: command dedup and cancellation, process supervision, output size and document status.
- `TextEncoding`: base64 and percent-encoding.
- `Stack`, `StackSession`: the layers composed, from the bytes of the stream to the keystrokes the shell reads.
- `Bytes`: bytes, fixed-width integers and what the others share.

Everything the agent cannot decide for itself is an input: what a read returns and when, the clock, random ids and masks,
whether a write succeeds, what the shell says. Inputs come as scripts, and every theorem is about all scripts. A script
that runs out stands for the stop flag being set, a quiet stream, or a failed poll, as its declaration says.

Where the code and its comments disagree the model follows the code. `deserialize` does not compare the payload digest
(src/mgs.cpp:150-160), although src/mgs.h:59 says it does.

Some properties one would expect do not hold of the code as it is; for each there is a lemma with an instance and a lemma
with the exact condition:

- A pong that cannot be sent closes the client, and if anything but pongs is still to come the split of the bytes into
  reads then shows (`Splits.FailedPongTellsSplitsApart`, `Splits.CutsAgreeExactlyWhenSettled`).
- The header length of a message is checked in 32-bit arithmetic; when the sum wraps, taking the payload raises an
  exception that nothing catches, and a running shell is not torn down (`SessionCrash.WrapAbandonsShell`,
  `SessionCrash.ShellsAreTornDownExactlyWithoutWraps`, `SessionCrash.HarmlessExactlyWithoutWrap`).
- A worker that outlives the memory of its own command id takes the next worker's cancel token with it
  (`Commands.OutlivedWorkerHidesTheNext`, `Commands.RunStaysExact`).
- The size bound on truncated output needs a capacity of at least 70 bytes (`Runner.BoundHoldsFromSeventy`).
- An `AgentMessage` survives its own encoding only when its type fits its field without trailing padding and its id is
  canonical (`MgsProofs.MessageRoundTrip`).

## Model

| member | source | states |
|---|---|---|
| Frames.ParsesEveryFrame | src/websocket.cpp:48-91 | Every frame of RFC 6455 section 5.2 up to 1 MiB, in any length form, masked or not, parses to its own contents and leaves exactly what follows it |
| Frames.ParsesOnlyFrames | src/websocket.cpp:48-91 | Whatever is accepted is such a frame followed by the bytes left |
| Frames.ProperPrefixNeedsMore | src/websocket.cpp:48-91 | Every proper prefix of a frame asks for more bytes |
| Frames.OversizedFrameRefused | src/websocket.cpp:74-77 | A frame over the limit is refused from its header on |
| Frames.DecisionIsStable | src/websocket.cpp:48-91 | An accepted frame or an error stays the same decision when bytes are appended |
| Frames.MakeFrame | src/websocket.cpp:24-46 | The frame built in place is the encoding of the payload under the shortest length form and the mask: each of its last bytes is, bit by bit, the exclusive or of a byte of the payload and one of the key |
| Frames.HeaderLayout | src/websocket.cpp:24-91 | Byte by byte, FIN and opcode, mask bit and length, its extension in network order, and the key stand where RFC 6455 section 5.2 puts them |
| Frames.PayloadLayout | src/websocket.cpp:24-91 | Behind them stands the payload, each bit of it changed exactly where the key has a one |
| Frames.ParseFrameInPlace | src/websocket.cpp:48-91 | The parser over the buffer gives the result of the specification and erases exactly the frame |
| WebSocket.SplitIndependence | src/websocket.cpp:178-242 | Polling over any cut of any stream, malformed ones included, yields exactly the one-shot reading if and only if the link takes all its answers, the echo of a close included |
| WebSocket.PollIsServed | src/websocket.cpp:178-242 | When nothing but pongs follows the first pong that fails, polling over any cut yields what the link serves of the one-shot reading, which ends where that pong does |
| Splits.CutsAgreeExactlyWhenSettled | src/websocket.cpp:161-242 | All cuts of a stream give the same messages, answers and close or error point if and only if nothing but pongs follows the first pong the link does not take |
| Splits.FailedPongTellsSplitsApart | src/websocket.cpp:161-242 | Every stream in which a message, a close, an error or an end follows a pong that fails has two cuts that give different events |
| Splits.FittingPongsHideCuts | src/websocket.cpp:178-242 | So no cut shows while all pongs fit, nor in a stream that asks for nothing but pongs |
| WebSocket.Reassembly | src/websocket.cpp:206-240 | Messages cut into fragments anywhere, with pings and pongs between, come out whole with the first opcode; each ping is answered with its payload |
| WebSocket.Client.Send | src/websocket.cpp:161-176 | A send on an open client writes the final masked frame of its payload, in the shortest form, under the mask drawn for it, or closes the client; a closed client writes nothing |
| WebSocket.Client.Recv | src/websocket.cpp:178-242 | The receiving loop over its fields has the state, reads, answers and return code of one specified receive, and every frame it wrote is the masked frame of its answer |
| JsonProofs.ValueRoundTrip | src/json.cpp:184-252 | The parser on a printed value followed by any legal continuation stops exactly at the end of the value, and has it |
| JsonProofs.ParseDump | src/json.cpp:254-345 | Parsing what was printed gives the value back, for every nested value with integral numbers below 1e15 |
| JsonProofs.DumpIsInjective | src/json.cpp:300-345 | Different values never print alike |
| JsonProofs.StringRoundTrip | src/json.cpp:275-298 | Any byte string survives escaping and parsing |
| JsonText.InsertAssigns | src/json.cpp:188-208 | Assigning a member of a parsed object sets that key and no other |
| JsonText.ParsedIsWellFormed | src/json.cpp:184-252 | A parsed value is an ordered map at every level |
| JsonText.ReprintIsStable | src/json.cpp:254-345 | Printing what was parsed and parsing it again changes nothing |
| JsonUnicode.EscapesAreUtf8 | src/json.cpp:109-182 | Any scalar values spelled as escapes, in surrogate pairs above FFFF, parse to bytes that RFC 3629 decodes to those values |
| JsonSpelling.PiecesRead | src/json.cpp:109-182 | Every literal of plain bytes, one-letter escapes and code units in any hex digits is read as what it means |
| JsonSpelling.PiecesFound | src/json.cpp:109-182 | And whatever is read as a literal is one, with that meaning |
| JsonSpelling.EscapeIsShortest | src/json.cpp:275-298 | The printer spells each byte in as few bytes as RFC 8259 allows |
| JsonSpelling.EscapeIsLegal | src/json.cpp:275-298 | And in a spelling that RFC 8259 allows for that byte |
| JsonGrammar.SpellingParses | src/json.cpp:94-252 | Every spelling of a value by the grammar, with any blanks around its tokens and members in any order and number, parses to its meaning, and the parser stops where it ends |
| JsonGrammar.SpellingFound | src/json.cpp:94-252 | Whatever is parsed as a value is such a spelling of it |
| JsonGrammar.AcceptsExactlyTheGrammar | src/json.cpp:254-269 | A text parses to a document if and only if it is a spelling of that value with blanks around it |
| JsonCode.Parser.Literal | src/json.cpp:141-182 | The string loop over the cursor gives the specified string, error and offset |
| JsonCode.Parser.Value | src/json.cpp:184-252 | The recursive parser over one cursor gives the specified value or error; the cursor stays in the input and every nested call moves it |
| JsonCode.ParseText | src/json.cpp:254-269 | The whole parse gives the specified document, error or trailing-data report, which `JsonGrammar.AcceptsExactlyTheGrammar` says in terms of the text |
| JsonCode.EscapeTo | src/json.cpp:275-298 | The appending escaper adds exactly the literal |
| JsonCode.DumpTo | src/json.cpp:300-339 | The appending printer adds exactly the printed value |
| Calendar.NextIsSuccessor | src/util.cpp:180-187 | The day after any valid date is the next number |
| Calendar.EpochIsZero | src/util.cpp:180-187 | 1 January 1970 is day 0 |
| Calendar.OrderIsKept | src/util.cpp:180-187 | A later date has a greater number |
| Calendar.DaysIsTheDayCount | src/util.cpp:180-187 | The count is a bijection between the valid dates of all years and the integers, inverse to walking day by day from the epoch |
| Dates.ParsersAgree | src/util.cpp:191-215 | Both date parsers give the calendar's seconds for the same instant, with any weekday in front or none and any zone behind |
| Dates.ScanIntReads | src/util.cpp:191-203 | A number field of the formats takes blanks, a sign and as many digits as follow and fit |
| Dates.ScanIntFound | src/util.cpp:191-203 | And it takes nothing else |
| Dates.NoTimeIsRefused | src/util.cpp:191-194 | A text without a T is no timestamp |
| Dates.UnknownMonthIsRefused | src/util.cpp:205-211 | A date whose month has no known name is refused |
| MgsProofs.UuidFromWireReads | src/mgs.cpp:71-102 | Any 16 wire bytes survive being spelled and read |
| MgsProofs.UuidFromWireIsCanonical | src/mgs.cpp:89-102 | What is spelled is a canonical UUID |
| MgsProofs.CanonicalUuidReads | src/mgs.cpp:71-102 | Any canonical UUID survives the wire |
| MgsProofs.HalvesAreSwapped | src/mgs.cpp:71-102 | On the wire the second half of the id comes first: which digits of the text each byte is spelled as |
| MgsProofs.BadIdIsZeros | src/mgs.cpp:104-123 | An id that does not read is written as zeros |
| MgsProofs.FieldsTile | src/mgs.cpp:104-123 | The fields tile bytes 0 to 119, each at its own offset |
| MgsProofs.TypeField | src/mgs.cpp:104-123 | The type is cut to 32 bytes or filled up with spaces |
| MgsProofs.SerializedReads | src/mgs.cpp:104-164 | What any message comes back as after its own encoding |
| MgsProofs.MessageRoundTrip | src/mgs.cpp:104-164 | A message comes back unchanged if and only if its type fits without trailing padding and its id is canonical |
| MgsProofs.LongerHeader | src/mgs.cpp:125-164 | A message is accepted if and only if its declared header is long enough and inside it; each field is read at its own offset and the payload is what lies behind |
| MgsProofs.OutOfRangeExactlyOnWrap | src/mgs.cpp:131-162 | The slice past the end is reached if and only if the 32-bit length check wraps |
| MgsProofs.WrapHappens | src/mgs.cpp:131-162 | 120 bytes that declare a header of 2^32 - 1 reach it |
| MgsCode.PutUnsigned | src/mgs.cpp:42-48 | A field written in place is its big-endian bytes and nothing else changes |
| MgsCode.GetUnsigned | src/mgs.cpp:50-60 | The accumulating loop reads the big-endian value without loss |
| MgsCode.ReadUuid | src/mgs.cpp:71-87 | The scanning loop accepts and yields what the specification of the text form says |
| MgsCode.SpellUuid | src/mgs.cpp:89-102 | The spelling loop yields the grouped text |
| MgsCode.Write | src/mgs.cpp:104-123 | The writes into one buffer make up the serialized message |
| MgsCode.Read | src/mgs.cpp:125-164 | The reads yield the specified message, refusal or exception |
| Outbox.Outbox.Add | src/session.cpp:472-475 | The new entry goes last, the oldest making room at the cap |
| Outbox.Outbox.Ack | src/session.cpp:477-479 | An acknowledgement leaves the specified suffix |
| Outbox.Outbox.DueResend | src/session.cpp:481-493 | The answer and the updated front are the specified ones |
| Outbox.AckedIsSuffix | src/session.cpp:477-479 | What an acknowledgement removes is numbered up to it, and the front that remains is above it |
| Outbox.EveryRunIsValid | src/session.cpp:472-493 | In every state of every run the buffer is the contiguous run ending with the last frame sent, at most 8192 long, each entry faithful to its history, and only the front has been resent |
| Outbox.DeadOnlyAfterSilence | src/session.cpp:481-493 | A peer is reported dead only when the oldest frame was resent 240 times and sent at least 241 intervals ago |
| Outbox.ResendRepeatsAFrame | src/session.cpp:481-493 | A resend is byte for byte the oldest frame not acknowledged |
| Outbox.SilenceEscalates | src/session.cpp:472-493 | With no acknowledgement or eviction the due polls answer with the resends left and then with dead, for ever: the 241st reports a fresh front |
| Outbox.SilenceIsNoticedInTime | src/session.cpp:481-493 | Polled once an interval, a frame nobody acknowledges is resent 240 times and at the 241st poll the peer is dead |
| LossyLink.NothingIsLost | src/session.cpp:49-89 | Over a channel that loses, repeats and reorders, the peer has delivered a prefix of what was sent and every later frame is still buffered unless 8192 newer ones pushed it out |
| LossyLink.DeliveryStaysPossible | src/session.cpp:70-89 | From every state with nothing evicted and a resend left, some schedule delivers everything |
| LossyLink.ControlAckDropsHandshake | src/session.cpp:84-98 | A peer that acknowledged a control message would lose the handshake request |
| SessionLink.SessionLosesNothing | src/session.cpp:49-89 | At every moment of every session over such a channel the peer has delivered exactly the first fresh stream-data of the log, in order, and each later one among the last 8192 is in the session's buffer, byte for byte |
| SessionRuns.RunShape | src/session.cpp:248-468 | Every session is a request, a wait, and then nothing more, or acceptance, completion and either the failure report or a shell, a bridge and one teardown |
| SessionRuns.ShellIsTornDownOnce | src/session.cpp:330-468 | At most one shell is started; unless the process goes down it is killed, reaped and closed exactly once, and none of that happens without a shell |
| SessionRuns.ShellNeedsHandshake | src/session.cpp:269-338 | A shell is started only after an accepted handshake |
| SessionFrames.PlayIsFaithful | src/session.cpp:49-89 | In every session the buffer is the one its own log of sends, polls and acknowledgements produces |
| SessionFrames.FreshFramesAreNumbered | src/session.cpp:49-68 | Fresh stream-data carries 0, 1, 2, ... with the SYN flag on 0 alone |
| SessionFrames.FreshFramesInOrder | src/session.cpp:257-460 | Payload types come in the order request, completion, output and exit code, or the failure report |
| SessionFrames.ResendsRepeatFrames | src/session.cpp:72-81 | Every resend is byte-identical to an earlier frame of the session |
| SessionFrames.PeerGivenUpOnlyAfterSilence | src/session.cpp:72-81 | A session gives its peer up only for a frame first sent 241 intervals ago and resent 240 times |
| SessionPasses.BridgeStopsForAReason | src/session.cpp:353-450 | The main loop makes another pass unless what it heard ends the session or the pass is not fit to listen |
| SessionPasses.HandshakeOutcome | src/session.cpp:269-320 | The wait ends with the verdict on the last arrival heard, the earlier ones settling nothing, or at its deadline, a dead peer or the stop flag |
| SessionInput.InputIsAppliedOnceInOrder | src/session.cpp:422-449 | The inputs applied are exactly those that arrive in their turn in the passes heard, each once; the sizes set are theirs; and their keystrokes are all written but for what the writes of the last pass did not take |
| SessionInput.EveryKeyIsWritten | src/session.cpp:435-448 | When the writes take what they are given, every keystroke of every input in its turn is written |
| Session.TakenIsCapacity | src/session.cpp:435-448 | Of its keystrokes a pass writes the first ones, as many as its writes take |
| SessionInput.InOrderIsConsecutive | src/session.cpp:422-426 | Their numbers have no repeat and no hole |
| SessionInput.InOrderTakesTheNext | src/session.cpp:422-426 | The next number is taken whenever it comes |
| SessionInput.SessionFeedsInOrder | src/session.cpp:303-449 | The same over whole sessions, counted from the accepted response; outside the loop nothing is applied or written |
| SessionInput.NoShellNoInput | src/session.cpp:269-337 | A session without a shell applies and writes nothing |
| SessionInput.ShellReadsWhatWasTyped | src/session.cpp:428-449 | When every copy of a number carries the same keystrokes, what is written and what the last write left over are exactly what was typed up to the last number applied |
| SessionOutput.BridgeForwardsOutput | src/session.cpp:365-386 | The fresh stream-data of the loop is exactly what the shell said in the passes that got as far as it, chunk for chunk |
| SessionOutput.SessionForwards | src/session.cpp:257-460 | The payloads of every session's fresh stream-data: the request; if accepted, completion; then the failure, or the output of the passes made and the exit code |
| SessionAnswers.BridgeAnswersInOrder | src/session.cpp:409-425 | Of the passes heard, exactly the messages other than acknowledgements and the close are acknowledged, each once and in order, and exactly the acknowledgements are heard |
| SessionAnswers.HandshakeAnswersInOrder | src/session.cpp:298-318 | So does the wait for the handshake, which acknowledges and drops what is not for it |
| SessionEndings.DeadPeerEndsTheBridge | src/session.cpp:354-359 | Nothing is done after the peer is given up |
| SessionEndings.IdlenessEndsTheBridge | src/session.cpp:360-363 | Without a message for over 20 minutes the session ends at the first pass that notices, which reads and sends no output |
| SessionEndings.ClockIsLastHeard | src/session.cpp:360-407 | At every pass the loop comes to, its clock stands at the last message before it |
| SessionEndings.IdleExactlyAfterSilence | src/session.cpp:360-407 | A pass with a live peer ends the loop for idleness if and only if it comes more than 20 minutes after the last message |
| SessionEndings.HandshakeIsBounded | src/session.cpp:276-281 | Nothing after the handshake deadline matters |
| SessionCrash.CrashExactlyOnWrap | src/session.cpp:402-404 | A frame brings the process down if and only if its declared header length wraps |
| SessionCrash.DownExactlyOnWrap | src/session.cpp:298-404 | A session brings the process down if and only if an arrival that its wait or its loop hears wraps |
| SessionCrash.ShellsAreTornDownExactlyWithoutWraps | src/session.cpp:402-468 | A shell is left behind if and only if an arrival its loop hears wraps; every other shell is killed, reaped and closed once |
| SessionCrash.HarmlessExactlyWithoutWrap | src/session.cpp:402-468 | Every session in which no other arrival wraps tears its shell down if and only if this arrival does not wrap |
| SessionCrash.WrapAbandonsShell | src/session.cpp:402-404 | For every arrival that wraps there is a session whose shell it leaves started and not killed |
| SessionCrash.WrappingFrameExists | src/mgs.cpp:131-162 | 120 bytes that declare a header of 2^32 - 1 are such an arrival |
| SessionCode.Connection.SendStreamData | src/session.cpp:49-68 | Builds, numbers, buffers and sends one message as specified |
| SessionCode.Connection.PumpOutbox | src/session.cpp:72-81 | Resends at most one frame and reports a dead peer |
| SessionCode.Connection.HandleAcknowledge | src/session.cpp:84-89 | Clears what a parsed acknowledgement names, and nothing otherwise |
| SessionCode.Connection.AwaitHandshake | src/session.cpp:269-319 | The waiting loop ends in the specified state and verdict |
| SessionCode.Connection.DrainShell | src/session.cpp:365-386 | The draining loop sends every chunk and remembers a failed send |
| SessionCode.Connection.TypeKeys | src/session.cpp:435-448 | The write loop writes the specified prefix and fails exactly when it is not everything |
| SessionCode.Connection.BridgeShell | src/session.cpp:344-450 | The main loop ends in the specified state |
| SessionCode.Connection.TearDownShell | src/session.cpp:452-466 | The teardown in its order |
| SessionCode.Connection.RunSession | src/session.cpp:248-468 | The whole session is the specified one |
| Control.StartsOnce | src/session.cpp:673-680 | However often a request is delivered, its session starts once |
| Control.StartsExactlyTheSupported | src/session.cpp:647-682 | A session starts if and only if some request that parses, for a standard shell without encryption, asks for it |
| Control.ControlChannel.HandleRequest | src/session.cpp:647-682 | The set of ids and the live count stay those of the history of requests and ends |
| HttpBody.EncodingDecodes | src/http.cpp:439-471 | Every chunked coding of a body by RFC 9112 section 7.1, with anything behind it, decodes to exactly that body |
| HttpBody.CutEncodingFails | src/http.cpp:439-471 | Cut anywhere it is never complete, delivers a prefix of the body, and the error says what is missing or why reading failed |
| HttpBody.CompleteIsStable | src/http.cpp:439-471 | A complete body stays the same whatever follows |
| HttpBody.LengthCompletes | src/http.cpp:473-488 | Under a declared length a body is complete if and only if that many bytes came; it is those bytes, and otherwise the error says why |
| HttpBody.EofCompletes | src/http.cpp:490-505 | Without one it is the whole stream, complete if and only if the peer closed it |
| HttpBody.StrtoulReads | src/http.cpp:449-475 | A size or length is read by `strtoul`: blanks, sign, prefix and digits, saturating at 64 bits |
| HttpCode.BodySink.Append | src/http.cpp:384-397 | An append adds all of its bytes to body and count or fails |
| HttpCode.BodyReader.Fill | src/http.cpp:424-437 | Reading until enough is pending succeeds if and only if the stream has that much |
| HttpCode.BodyReader.Deliver | src/http.cpp:454-464 | Exactly the asked number of bytes moves to the sink, or the error says why not |
| HttpCode.BodyReader.ReadChunked | src/http.cpp:439-471 | The chunk loop over reads of any size reports the one-shot result |
| HttpCode.BodyReader.ReadLength | src/http.cpp:473-488 | So does the loop for a declared length |
| HttpCode.BodyReader.ReadToEof | src/http.cpp:490-505 | And the loop to the end of the stream |
| HttpCode.BodyReader.ReadBody | src/http.cpp:416-506 | For every cut into reads the bytes delivered and the success or failure are those of the whole stream; a sink that gives up keeps a prefix; bytes not used stay |
| Commands.SeenCommands.Add | src/main.cpp:148-164 | Set and queue stay in step and hold the specified ids |
| Commands.InFlight.Add | src/main.cpp:170-176 | A fresh token under the id, and the count one up |
| Commands.InFlight.Cancel | src/main.cpp:183-189 | The token under the id is flagged and no other |
| Commands.InFlight.CancelAll | src/main.cpp:190-193 | Exactly the tokens in the table are flagged |
| Commands.EveryRunIsSound | src/main.cpp:148-187 | In every run the ids remembered are the last 512 accepted, a command is accepted again only after 512 newer ones, and the count is the number of running workers |
| Commands.SendRemembers | src/main.cpp:285-298 | A delivery is remembered whether or not its payload is good; a repeated one changes nothing |
| Commands.DrainMeansIdle | src/main.cpp:194-198 | The drain condition holds if and only if no worker is running |
| Commands.StepStaysExact | src/main.cpp:168-205 | Once exact for a command, the table stays so across a step if and only if no second worker comes to run it, whatever other commands do |
| Commands.RunStaysExact | src/main.cpp:168-205 | Over whole runs, the table is exact for a command in every state if and only if no two workers ever run it at once |
| Commands.TimelyRunStaysExact | src/main.cpp:148-205 | It is exact for a command in every run whose workers of that command finish while it is remembered |
| Commands.CancelReachesItsWorker | src/main.cpp:381-400 | A cancel then finds the command if and only if a worker runs it, and flags that worker alone |
| Commands.CancelAllReachesEveryWorker | src/main.cpp:190-193 | With an exact table a shutdown flags every running worker and no other |
| Commands.OutlivedWorkerHidesTheNext | src/main.cpp:177-182 | After an overlap the newer worker cannot be cancelled |
| Commands.OutlivedWorkerIsReachable | src/main.cpp:285-298 | A run of 513 commands reaches such an overlap |
| Commands.Agent.HandleSendCommand | src/main.cpp:285-379 | A delivery starts a worker if and only if its id is not remembered and its payload is good |
| Commands.Agent.HandleCancelCommand | src/main.cpp:381-400 | A cancel does the specified step |
| Exec.EveryRunIsSound | src/exec.cpp:86-164 | Each stream is the first max bytes read, marked if and only if there were more; one SIGTERM at most, then one SIGKILL at least 5 s later; not both cancelled and timed out; each read end closed once |
| Exec.LoopReadsEverything | src/exec.cpp:92-158 | Without a SIGKILL everything offered on a stream is read, clipped or not |
| Exec.SignalsComeWhenDue | src/exec.cpp:132-157 | The signals sent are exactly those the passes made call for: SIGTERM at the first cancel or at the deadline, SIGKILL at the first pass after the grace |
| Exec.ReasonIsOfTheFirst | src/exec.cpp:132-137 | A run is reported cancelled if and only if the first pass that calls for a SIGTERM has a cancel pending, and timed out if and only if it has none |
| Exec.RunShell | src/exec.cpp:86-164 | The loop over its local variables ends with the specified output, signals and flags |
| Runner.TruncatedAsPromised | src/runner.cpp:139-163 | From 70 bytes of capacity the output is a prefix of each stream, marked exactly where cut, within capacity; it is whole when it fits, and uses the capacity but for at most a byte when it does not |
| Runner.BoundHoldsFromSeventy | src/runner.cpp:139-163 | The size bound holds for all streams if and only if the capacity is at least 70 |
| Runner.SmallCapacityOverflows | src/runner.cpp:149-154 | Below that the subtraction wraps and whole streams come back |
| Runner.ResultOf | src/runner.cpp:259-317 | Each status from the fields of the step alone, and its code: the exit code, or 1 for a failure without one |
| Runner.RunDocument | src/runner.cpp:252-336 | One result per step in order up to the first cancelled; Success if and only if every step was ruled out or ran cleanly, Cancelled if and only if a step was |
| TextEncoding.Base64Decodes | src/util.cpp:53-83 | A decoder by RFC 4648 section 4 recovers every input |
| TextEncoding.Base64IsInjective | src/util.cpp:53-83 | Different inputs encode differently |
| TextEncoding.Base64Length | src/util.cpp:53-83 | The length is 4 * ceil(n / 3) |
| TextEncoding.Base64Padding | src/util.cpp:69-81 | Pads complete the last group and stand nowhere else |
| TextEncoding.EncodeBase64 | src/util.cpp:53-83 | The loop with its two endings yields that encoding |
| TextEncoding.UriDecodes | src/util.cpp:286-302 | One percent-decoder undoes the encoding with slashes encoded or not |
| TextEncoding.UriIsInjective | src/util.cpp:286-302 | No two texts meet, even when encoded differently |
| TextEncoding.UriAlphabet | src/util.cpp:286-302 | Only unreserved characters, percent signs and unencoded slashes come out |
| TextEncoding.UriByteIs | src/util.cpp:286-302 | Exactly the unreserved characters of RFC 3986, and slashes where they are kept, stay; the others are a percent sign and two upper-case digits |
| TextEncoding.EncodeUri | src/util.cpp:286-302 | The byte loop yields that encoding |
| Stack.FramedMessageArrives | src/mgs.cpp:104-164 | A message serialized and framed for sending parses back to itself, whatever follows |
| Stack.AckReads | src/session.cpp:84-114 | The acknowledgement this agent prints reads as the number of the message it acknowledges |
| Stack.AckClears | src/session.cpp:84-89 | An acknowledgement that carries a number, as a number or a string, clears what is numbered up to it |
| Stack.NumberlessAckClearsNothing | src/session.cpp:84-89 | Without one that can be read it clears nothing |
| Stack.MessagesArrive | src/session.cpp:393-404 | Messages in any fragments and any reads are delivered and each decodes to itself |
| Stack.KeystrokesReachTheShell | src/session.cpp:353-449 | Whatever the peer sends, in any fragments and reads, a loop that hears all of it, in passes that may be quiet, see output, resend and write in pieces, writes exactly the keystrokes of the inputs that come in their turn |
| Stack.TypedIsRead | src/session.cpp:422-449 | Consecutive keystrokes among repeats of themselves and older input are exactly what the shell reads |
| StackSession.SessionWritesTheKeystrokes | src/session.cpp:269-449 | Over whole sessions, from the bytes of the data channel: the last message the wait hears is the response it accepts, and of the messages heard after it the shell gets exactly the keystrokes of the inputs that come in their turn, counted from the number after that response |
| StackSession.SessionReadsWhatWasTyped | src/session.cpp:269-449 | So consecutive keystrokes typed after the response, among repeats and older input, are all that the shell reads |
| StackSession.PlainSession | src/session.cpp:269-449 | For every accepted response and all keystrokes there is such a session |
| StackSession.PlainLoop | src/session.cpp:353-449 | And such a loop, from every state and time at which no resend is due |

## Left out

- TLS, sockets, the pty, fork, signals, files, instance metadata and all AWS calls: their answers are inputs.
- SHA-256, SHA-1, HMAC and request signing: the payload digest is any 32 bytes determined by the payload.
- Floating-point JSON numbers: a number that is not integral or not below 1e15 is kept as its token, and what `strtod`
  makes of a token is a parameter. The grammar accepted is wider than that of RFC 8259, as the code is.
- `read_headers`, the choice of framing from the headers, the upgrade reader and their size limits.
- The verdict on a handshake response, and the building of the control, handshake and state payloads, whose text no
  property depends on; the completion notice is a constant.
- Connecting and opening a session's data channel (src/session.cpp:200-246): a session starts at its announcement.
- Stack.AckReads: sequence numbers of 1e15 and up print as floating-point numbers, which are left out above.
- JsonCode.ParseText: which error a malformed text gets, and where, is what the specified functions say; no property is proved
  of either.
- Stack space: the recursive JSON parser (src/json.cpp:184-252), which the session calls on payloads of its peer, is taken to
  have enough for any nesting.
- Calendar.NextIsSuccessor: years whose arithmetic would overflow a C++ `int` (src/util.cpp:181-182) are not told apart.
- SessionInput.InputIsAppliedOnceInOrder: an acknowledged input is not promised to be applied, because the code
  acknowledges before it checks the order.
- SessionFrames.FreshFramesAreNumbered: numbers are reduced to 64 bits on the wire; the overflow of a session's own
  counters, undefined in C++, is not modelled.
- A write to the pty that is refused for now is made again: the retry does not appear, so neither does a shell that never
  reads. Draining a shell that never pauses does not end in the code either; scripts are finite.
- LossyLink.NothingIsLost: a dead peer while eviction keeps replacing the front is not detected by the code, and nothing
  is claimed about how soon that is noticed.
- Control.StartsOnce: dedup is per connection, as the set of ids is local to `run`.
- Threads: the tables of `Commands` are under one lock in the code, so their operations are atomic steps in any order; a
  cancel token is a number instead of a shared object.
- The bounded wait that reaps a child, with its own SIGKILL (src/exec.cpp:166-187), and exit codes.
- Runner.TruncatedAsPromised: stream sizes are taken not to overflow 64 bits when added.
- Parameter substitution in documents, preconditions and step inputs: a step says what became of it.
- Dates.ParsersAgree: the standard's `sscanf` is modelled as far as the two formats need it.
- Extracting a command id from a message id, inventory, package scraping, self-update, clock setting, logging, command
  line parsing, packaging and CA data: input/output or thin string handling.
