# Verified model of sockudo-ws

This project models the deterministic core of `sockudo-ws`, an RFC 6455 WebSocket engine, in Dafny
4.11 and proves what it promises over all inputs, all ways of cutting a stream, and all runs of its
state machines. `dafny verify dfyconfig.toml` checks all of it.

| file | models |
|---|---|
| `Octets.dfy`, `Masking.dfy`, `MaskingKernel.dfy` | octets, exclusive-or, the masking key, and the blocked copy-and-mask kernel |
| `FrameFormat.dfy`, `FrameEncoder.dfy`, `WireFormat.dfy` | a stateless reader and writer of frames (sections 5.2 and 5.3 of RFC 6455), the encoder, and what both mean for the octets |
| `ParserModel.dfy`, `FrameParser.dfy`, `ChunkedParsing.dfy` | the resumable parser as a value and as an object, and its behaviour over streams |
| `Utf8.dfy`, `Unicode.dfy` | UTF-8 by its grammar, the incremental validator, and the text it stands for |
| `Messages.dfy`, `MessageLaws.dfy`, `FrameOrder.dfy`, `Protocol.dfy`, `ProtocolLaws.dfy` | a reference semantics of receiving, its laws, and the protocol object proved against it |
| `Outbound.dfy`, `Inbox.dfy` | what a writer has put on the wire, and what a reader has still to return |
| `SplitWriter.dfy`, `SplitReader.dfy`, `SplitStream.dfy` | the split stream: writer driver, reader, and both on one queue |
| `SplitWriterLaws.dfy`, `SplitReaderLaws.dfy` | what driver and reader must do, case by case and over runs |
| `UnifiedStream.dfy`, `UnifiedSafety.dfy`, `Delivery.dfy`, `UnifiedLaws.dfy` | the unified stream as a step machine, what every run of it keeps, and what each turn must do |
| `StreamObject.dfy` | the unified stream as an object that takes the machine's steps |
| `Handshake.dfy` | two unified streams joined by ordered channels |
| `Heartbeat.dfy` | the heartbeat |
| `Cork.dfy` | the cork buffer |
| `Negotiation.dfy`, `Selection.dfy`, `NegotiationLaws.dfy` | permessage-deflate: negotiation |
| `DeflateFormat.dfy`, `Inflate.dfy` | the codec contract, stored blocks, and the bounded inflate loop |
| `Compression.dfy`, `EmptyMessages.dfy`, `CompressedMessages.dfy`, `CompressionLaws.dfy` | histories and codec objects, flushes without data, compressed messages in frames, and what each must be |

How the pieces hang together:

- A stateless reader says what a frame is. The parser is tied to it by an abstraction: the octets
  it stands for are the saved header octets, the ready payload masked again, and the rest of the
  buffer. Chunk independence and the fast paths follow from that.
- A reference function says what a stream of octets means: messages, an error, what is left over.
  It is compositional, which gives chunk independence; the protocol object returns exactly its
  result, so every law of the reference is a law of the object.
- The stream machines use the same reference for what they read and the same encoding for what
  they write, so that what one end encodes can be followed through the wire to what the other end
  returns.
- Beside the machines stand laws that do not use their definitions: frames by their octets, messages
  by the position of their frames, and for every case of a turn or wake the frames, results and
  timers it must leave; what is required of every step is then carried over runs.
- The parser, the validator, the protocol, the heartbeat, the unified stream, the cork buffer and
  the deflate encoder and decoder are classes whose methods are proved against specification functions.

Some promises hold only under a condition. Each has its failing input and its exact condition:

- A typed call need not fail although the text received so far is hopeless: if raw calls took the
  hopeless fragments and the typed call receives, say, only a Ping, it succeeds
  (`MessageLaws.HopelessTextCanPassUnseen`). `MessageLaws.CheckedMeansValid` and
  `MessageLaws.MixedRunFailsExactly` say exactly when calls fail.
- A lowered frame size limit rejects a partly received frame permanently: raising the limit again
  does not revive it (`ChunkedParsing.RaisingTheLimitDoesNotRevive`), and that is the only case in
  which a limit change does not act as if the limit had been in force all along
  (`ChunkedParsing.SetMaxFrameSizeKeepsFrame`). The crate changes the limit once per parser, when a
  compressed protocol is split (src/protocol.rs:1299), so it never raises one again.
- With context takeover and a compression threshold of zero, an empty message behind another one
  loses the message after it: the codec answers a repeated flush with no octets, so that the trailer
  appended by the receiver begins a stored block (`EmptyMessages.EmptyMessageLosesTheNext`).
  `EmptyMessages.ArrivalConditionIsExact` says exactly which sequences arrive, for codecs whose
  output does not happen to read as its own input there. The default threshold is 32.
- With context takeover a message within the frame limit can have a compressed body above it, which
  the peer refuses (`CompressedMessages.LargestMessageCanBeRefused`,
  `CompressedMessages.CompressedMessagesSurviveCutting`).
- A send, flush or shutdown that fails between two receive calls loses a Close that was already
  accepted (`UnifiedDelivery.FailedFlushLosesTheClose`, `UnifiedDelivery.AcceptedCloseIsReturned`).
- A Close that reaches a split stream is answered with an empty Close, not with its own reason: the
  writer's encoder knows only a Close parsed before the split
  (`SplitStreams.LateCloseGetsEmptyAnswer`, `SplitStreams.AnswerEchoesOnlyEarlyClose`).

Inputs of the model: masking keys, heartbeat nonces, clock readings, the outcome and progress of
every read, write and shutdown, buffer capacities, cancellation, and host endianness.

## Model

| member | source | states |
|---|---|---|
| `Masking.MaskingTwiceIsIdentity` | src/frame.rs:925-970 | Masking is its own inverse at every phase of the key, so the receiver recovers what the sender masked |
| `Masking.MaskingConcatenation` | src/frame.rs:925-970 | Masking a payload in pieces, each at its own offset, equals masking it whole |
| `Masking.DoubledWordIsKeyTwice` | src/frame.rs:1189-1243 | The 64-bit mask word built from the key is the key twice in memory order, on little- and big-endian hosts |
| `Masking.WordMask` | src/frame.rs:1189-1257 | A 64-bit exclusive-or in native byte order equals eight bytewise ones with the right key octets |
| `Masking.HalfWordMask` | src/frame.rs:1189-1243 | The same for the 32-bit word |
| `MaskingKernel.CopyMaskBlock` | src/frame.rs:1245-1257 | A block of any multiple of 8 octets is written masked, and nothing outside it changes |
| `MaskingKernel.CopyMaskLong` | src/frame.rs:1175-1187 | The 256-octet stage and what it hands on write exactly the masked payload, at every length |
| `MaskingKernel.CopyMaskWords` | src/frame.rs:1189-1243 | The 64/32/16/8/4/1 stages together write exactly the masked payload, at every length and on both endiannesses |
| `MaskingKernel.EncodePayloadMasked` | src/frame.rs:1158-1173 | The destination becomes the bytewise exclusive-or of the payload with the repeated key |
| `FrameFormat.EncodedFrameIsRead` | src/frame.rs:108-145 | Any acceptable frame, encoded and followed by anything, is read back as that frame with its exact size |
| `FrameFormat.ReadFrameIsEncoded` | src/frame.rs:588-980 | Whatever is accepted is the encoding of the frame reported, in a length form and within every limit |
| `FrameFormat.ReadFrameStable` | src/frame.rs:588-980 | A frame or an error once read is not changed by octets that follow |
| `FrameFormat.ReadFrameIsPrompt` | src/frame.rs:588-980 | A frame is accepted with its last octet, and not before |
| `FrameEncoding.EncodeFrameWithRsv` | src/frame.rs:1074-1156 | Appends exactly the encoding of the frame, for every payload size, mask and compression bit |
| `WireFormat.AcceptedFrameIsAnnounced` | src/frame.rs:39-50 | On the octets themselves: an accepted frame has opcode 0, 1, 2, 8, 9 or 10 in the low half of its first octet, FIN and RSV1 in its top bits, MASK and one of the three length forms behind it, and carries the payload bit by bit combined with the key |
| `WireFormat.EncodedFrameIsAnnounced` | src/frame.rs:108-145 | The same for every frame that is encoded, with the reserved bits clear and the shortest length form |
| `WireFormat.RefusedExactly` | src/frame.rs:983-1014 | By the octets: which frames are refused, and for which of their faults when there are several |
| `WireFormat.XorIsBitwise` | src/frame.rs:925-970 | The exclusive-or used for masking differs from an operand exactly in the bits that the other has set |
| `ParserModel.ParseSlowRefines` | src/frame.rs:588-980 | In every state the resumable parser gives what a stateless reader gives on saved header octets, re-masked ready payload and rest, and leaves a state that stands for the octets not yet consumed |
| `ParserModel.FastPathsAreSlowPath` | src/frame.rs:395-585 | All inlined fast paths give the same result, remaining buffer and state as the slow path |
| `ParserModel.CompleteDataIsSlow` | src/frame.rs:549-585 | The complete-unmasked-data path agrees with the slow path wherever it answers |
| `ParserModel.SmallFrameIsSlow` | src/frame.rs:417-547 | The complete-small-frame paths agree with the slow path wherever they answer |
| `ParserModel.WaitingExposesPayload` | src/frame.rs:925-970 | While it waits, the parser is in its payload state exactly if the header is known; then everything in the buffer counts as unmasked payload, and what was exposed before is unchanged |
| `ParserModel.CompletionKeepsPrefix` | src/frame.rs:925-970 | The payload finally returned starts with what was exposed while waiting |
| `ParserModel.ExposedPayload` | src/frame.rs:339-359 | What the parser exposes of a pending payload is the transmitted payload, unmasked |
| `FrameParsing.FrameParser.Parse` | src/frame.rs:395-415 | The object, with its 14-octet header store and in-place unmasking, refines the stateless reader |
| `FrameParsing.FrameParser.ParseAfterCompleteDataMiss` | src/frame.rs:417-547 | The entry without the first fast path does the same |
| `FrameParsing.FrameParser.TryParseCompleteUnmaskedData` | src/frame.rs:549-585 | Answers exactly like a full parse, or leaves parser and buffer alone |
| `FrameParsing.FrameParser.ParseSlow` | src/frame.rs:588-980 | The resumable loop refines the stateless reader |
| `FrameParsing.FrameParser.ParseHeaderWithLen` | src/frame.rs:983-1014 | With the extended length complete, stores exactly the header that the stateless reader finds in the saved octets, or returns the reader's objection and stores nothing |
| `FrameParsing.FrameParser.SetMaxFrameSize` | src/frame.rs:361-372 | Applies the new limit in every state without losing an octet; the parser again stands for its octets exactly unless a frame rejected before would fit the new limit |
| `ChunkedParsing.ParseAllReads` | src/frame.rs:395-1014 | Parsing until more input is needed yields all frames and the first error of the unread octets |
| `ChunkedParsing.FeedReads` | src/frame.rs:395-1014 | Feeding chunk after chunk yields the frames and first error of the concatenation |
| `ChunkedParsing.ChunkingIsIrrelevant` | src/frame.rs:395-1014 | However a stream is cut, the same frames and the same first error come out as from parsing it whole |
| `ChunkedParsing.FramesSurviveCutting` | src/frame.rs:395-1014 | Any list of acceptable frames, encoded and cut anywhere, is returned whole |
| `ChunkedParsing.SetMaxFrameSizeKeepsFrame` | src/frame.rs:361-372 | After a limit change the next call answers as the stateless reader does under the new limit, if and only if it is not a frame that was rejected before and fits now |
| `ChunkedParsing.RaisingTheLimitDoesNotRevive` | src/frame.rs:361-372 | At an input: lowered below a waiting frame and raised again, the limit refuses a frame the reader would wait for |
| `Utf8.ValidMeansNoRemainder` | src/utf8.rs:125-193 | The scanner leaves no incomplete character exactly on what the grammar of section 4 of RFC 3629 calls valid |
| `Utf8.ExtendableMeansRemainder` | src/utf8.rs:142-166 | What was received is still scannable exactly if some continuation makes it valid |
| `Utf8.RemainderAppend` | src/utf8.rs:76-109 | Only the incomplete character at the end matters for what follows |
| `Utf8.CompletePrefixLen` | src/utf8.rs:168-193 | Cuts a chunk before an incomplete last character, and nowhere else |
| `Utf8.Utf8Stream.Push` | src/utf8.rs:76-109 | Accepts a chunk exactly if everything so far can still become valid, and then holds the incomplete character |
| `Utf8.Utf8Stream.Resume` | src/utf8.rs:62-74 | Continues a stream whose valid part was seen elsewhere |
| `Unicode.ValidIsText` | src/utf8.rs:125-193 | Valid is exactly what encodes a sequence of Unicode scalar values, each in its shortest form (section 3 of RFC 3629) |
| `Unicode.TextIsUnique` | src/utf8.rs:125-193 | No two sequences of scalar values have the same octets |
| `Messages.ReceiveExtends` | src/protocol.rs:433-460 | Receiving in two steps equals receiving at once, and an early error stands |
| `Messages.ChunksDoNotMatter` | src/protocol.rs:433-460 | Accepted messages, and whether an error occurs, depend on the octets alone |
| `Messages.DeliveredIsDeliverable` | src/protocol.rs:540-634 | Every message accepted is within its size limit, valid text if checked, or a well-formed control message |
| `Messages.TextIsRefusedWhenHopeless` | src/protocol.rs:356-395 | A partly received text is refused exactly if no continuation could make it valid |
| `Messages.HopelessTextStays` | src/protocol.rs:356-395 | A text refused early would have been refused later as well |
| `MessageLaws.ReceiveIsReassembly` | src/protocol.rs:433-460 | Receiving is parsing frames and reassembling them as section 5.4 of RFC 6455 describes |
| `FrameOrder.ReceivedByPosition` | src/protocol.rs:540-806 | By position, over every stream: a message is open behind a data frame that is not final; while every frame is in place, in size and in text the messages are those its frames complete; the first that is not ends the stream with exactly its fault, behind the messages before it |
| `FrameOrder.NoErrorMeansInPlace` | src/protocol.rs:667-716 | Without an error every continuation is within a message and every text or binary frame outside one |
| `FrameOrder.FragmentIsReported` | src/protocol.rs:433-460 | A call reports a fragment exactly if it accepted one: data that is not final, in place, in size and in text, as everything before it |
| `FrameOrder.CloseByOctets` | src/protocol.rs:821-860 | A Close payload is empty, or two octets of a code that may be sent and then text; exactly the others are refused, each for its fault |
| `MessageLaws.FragmentsAreReassembled` | src/protocol.rs:667-806 | Any fragmentation of any data, with control frames anywhere between, gives the controls in place and then the whole message |
| `MessageLaws.OneByOneIsAllAtOnce` | src/protocol.rs:433-494 | Iterating the one-message call gives the messages, error and fragment flag of the all-messages call |
| `MessageLaws.CheckedMeansValid` | src/protocol.rs:606-634 | From any open text: a checking call succeeds exactly if it does without checking, its texts are valid, and the text then open can become valid or is one of which the call saw nothing |
| `MessageLaws.HopelessTextIsRefusedWhenSeen` | src/protocol.rs:667-716 | A text that raw calls left hopeless is refused by the first checking call that sees any of it, and by no other |
| `MessageLaws.HopelessTextCanPassUnseen` | src/protocol.rs:777-787 | At any hopeless text: a raw call takes its first fragment, a typed call that receives only a Ping succeeds |
| `MessageLaws.CheckingOnlyRefuses` | src/protocol.rs:513-533 | Checking changes no message; it can only end the stream earlier |
| `MessageLaws.MixedCallsReceiveTheStream` | src/protocol.rs:513-533 | Typed and raw calls in any order receive a prefix of the stream; without an error they receive all of it |
| `MessageLaws.MixedRunFailsExactly` | src/protocol.rs:513-533 | Exactly when a run of typed and raw calls fails, in terms of the unchecked stream alone |
| `MessageLaws.TypedCallsReturnValidText` | src/protocol.rs:790-806 | Every text that a typed call returns is valid, whatever raw calls took of it before |
| `MessageLaws.GoodTextNeverFails` | src/protocol.rs:356-395 | A stream whose texts are valid, and whose open text can become valid, never fails, however typed and raw calls are mixed |
| `MessageLaws.CloseRoundTrip` | src/protocol.rs:821-860 | A Close payload decodes to the code and reason it was encoded from |
| `MessageLaws.EncodedMessagesAreReceived` | src/protocol.rs:880-917 | Any list of well-formed messages encoded in one role is received in the other |
| `MessageLaws.MessagesSurviveCutting` | src/protocol.rs:880-917 | The same, however the octets are cut |
| `ProtocolHandling.Protocol.ProcessInto` | src/protocol.rs:433-460 | The object returns exactly the messages, fragment flag and error of the reference, keeps its invariant, and tracks received Closes |
| `ProtocolHandling.Protocol.ProcessNext` | src/protocol.rs:466-502 | The same one message at a time, through the fast path |
| `ProtocolHandling.Protocol.ProcessRawInto` | src/protocol.rs:513-537 | The raw calls follow the reference without text checks, and leave the object ready for typed calls |
| `ProtocolHandling.Protocol.PrevalidatePartialText` | src/protocol.rs:356-395 | Fails exactly if the text received so far is hopeless, although only new octets are looked at |
| `ProtocolHandling.Protocol.HandleContinuation` | src/protocol.rs:667-716 | Appends a fragment, within the limit, and completes or refuses the message as the reference does |
| `ProtocolHandling.Protocol.StartFragment` | src/protocol.rs:742-775 | Starts a message; text is checked from its first octet |
| `ProtocolHandling.Protocol.HandleRawContinuation` | src/protocol.rs:718-740 | Appends a fragment without checking text |
| `ProtocolHandling.Protocol.HandleClose` | src/protocol.rs:821-860 | Decodes a Close, refuses bad codes, lengths and text, and remembers the first reason |
| `ProtocolHandling.Protocol.EncodeMessageInto` | src/protocol.rs:880-917 | Appends the frame of the message, masked by clients only; a Close is noted |
| `ProtocolHandling.Protocol.EncodePong` | src/protocol.rs:920-927 | Appends the Pong with the payload of the Ping |
| `ProtocolHandling.Protocol.EncodeCloseResponse` | src/protocol.rs:940-961 | Appends the Close that answers the first Close received |
| `ProtocolHandling.FirstCloseIsAnswered` | src/protocol.rs:821-860 | Of several Closes received, the first one determines the answer |
| `ProtocolHandling.ReceiveStream` | src/protocol.rs:311-460 | A new object fed any chunks returns the messages of the whole stream, and an error exactly if it has one |
| `ProtocolLaws.OtherRoleReceives` | src/protocol.rs:880-917 | What one end sends is received by an end in the other role: clients mask, servers do not |
| `ProtocolLaws.CloseStateByTraffic` | src/protocol.rs:821-917 | Whatever was sent and received, in any order: the close state and the reason to answer follow from the first Close and from whether the peer sent one |
| `Outbound.WholeFramesThenOneCut` | src/compio.rs:348-364 | What reached the wire is whole frames, then a prefix of the last one |
| `Outbound.CutWireIsReceived` | src/compio.rs:348-364 | The peer reads every whole message of such a wire, in order, and never an error |
| `Outbound.AtMostOneClose` | src/compio.rs:2613-2676 | If only Pongs follow a Close, there is at most one Close |
| `SplitWriting.StepKeepsInv` | src/compio.rs:2500-2782 | Every step of the driver keeps the invariant on wire, Closes, deferred request, budget and shared cells, and takes nothing back |
| `SplitWriting.WakeKeepsInv` | src/compio.rs:2547-2765 | Whatever wakes the driver: expired timer, cancellation, deferred or new request |
| `SplitWriting.ControlDuringWriteKeepsInv` | src/compio.rs:2892-2919 | Requests during a write: a final one is deferred once and never overwritten |
| `SplitWriting.TimerDuringWriteKeepsInv` | src/compio.rs:2920-2937 | Deadlines during a write end the driver without starting another frame: nothing is encoded |
| `SplitWriting.WriterIsOrderly` | src/compio.rs:2500-2782 | Over every interleaving: whole frames plus at most one final cut frame, at most one Close, and only Pongs after it |
| `SplitWriting.NothingIsTakenBack` | src/compio.rs:139-186 | Over every run: status advances, the first terminal cause wins, the closing budget is fixed once, a deferred peer Close or read error stays until the driver ends, nothing is encoded after that |
| `SplitWriting.PeerReadsTheWire` | src/compio.rs:2500-2782 | The peer reads every whole message of the wire at any moment of any run, and never an error |
| `SplitWriting.DataIsWhatWasTaken` | src/compio.rs:2637-2676 | The data frames among all frames are exactly the data messages taken from the application, each once and in order |
| `SplitWriterLaws.ApplicationMessagesAreWritten` | src/compio.rs:2637-2676 | Over every run and for messages of every kind, Close, Ping and Pong included: the frames written for the application are, one to one and in order, what it handed over while the connection was open and the message could be encoded |
| `SplitWriterLaws.LocalCloseIsWritten` | src/compio.rs:2643-2667 | Over every run: a Close noted as sent by the application is among the frames, or the driver has ended |
| `SplitWriterLaws.SendIsWritten` | src/compio.rs:2637-2692 | A message handed over is encoded at once and waits to be written; a Close also starts closing, its budget and the end of the heartbeat; a later send does nothing; one that cannot be encoded ends the driver |
| `SplitWriterLaws.WakesInOrder` | src/compio.rs:2546-2580 | An expired deadline comes before everything, then cancellation, then the deferred request, then what is ready; a closed queue ends the driver |
| `SplitWriterLaws.LoopSeesDeadlines` | src/compio.rs:2529-2545 | The wait is over at once exactly if an active deadline or the closing budget is reached |
| `SplitWriterLaws.PublishedActivityCounts` | src/compio.rs:2533-2538 | Activity that the reader published reaches the heartbeat with the next turn |
| `SplitWriterLaws.TimerActs` | src/compio.rs:2701-2767 | The deadline reached first brings its frame: the due Ping, now outstanding, or the notice as the last frame, with its own cause |
| `SplitWriterLaws.TimerActsDuringWrite` | src/compio.rs:2920-2937 | During a write a spent budget or the first hard deadline ends the driver with its own cause, and nothing else does |
| `SplitWriterLaws.HardDeadlineIsFirst` | src/heartbeat.rs:91-104 | The hard deadline is the first of Pong and idle deadlines, Pong at the same time |
| `SplitWriterLaws.RequestActs` | src/compio.rs:2583-2636 | A request that is handled: a Pong reaches the heartbeat, a Ping is answered with its payload, a Close is answered unless one was sent, anything else ends the driver |
| `SplitWriterLaws.RequestWaits` | src/compio.rs:2891-2919 | During a write a Pong still reaches the heartbeat, the latest Ping waits, and a Close or error waits, stops the heartbeat and starts the budget |
| `SplitWriterLaws.WriteCompletes` | src/compio.rs:2701-2767 | A Ping that is written gets its timeout; the last frame ends the driver with its cause |
| `SplitWriting.PeerCloseIsAnswered` | src/compio.rs:2613-2627 | A peer Close that is handled, at once or after it was deferred, is answered unless this side has closed, with the reason copied at the split, and ends the driver |
| `SplitWriting.EveryFrameHasOrigin` | src/compio.rs:2577-2765 | Every frame of every run was added by a step with a reason for it: a Pong or Close answers the request handled, a Ping or notice was due, anything else was sent by the application |
| `SplitWriting.DeferredRequestEndsTheDriver` | src/compio.rs:2866-2922 | Over every run after a peer Close or read error is deferred: nothing but the answer to the Close is encoded any more |
| `SplitReading.StepKeepsInv` | src/compio.rs:2271-2405 | Every step keeps pending messages, retained request and queue in agreement |
| `SplitReading.HandOffIsExactlyOnce` | src/compio.rs:2271-2335 | For every schedule: returned Pings, Pongs and Closes and queued requests correspond one to one in order; what is returned is a subsequence of what was parsed, and a prefix unless a Close was accepted or the driver lost; without that a parse error comes after everything parsed before it |
| `SplitReading.CancelledWaitsAreInvisible` | src/compio.rs:2271-2335 | Cancelling a call at the wait for queue room and calling again, with any driver steps between, leaves every later state as it was, exactly unless the connection was terminated meanwhile with no parse error to report |
| `SplitReaderLaws.BatchIsReturned` | src/compio.rs:2271-2335 | Messages before any Close are returned to the last one and in order by as many calls, each control message with its request queued |
| `SplitReaderLaws.BatchIsReturnedUpToClose` | src/compio.rs:2298-2309 | With a Close, everything up to it is returned, and everything behind it, an error included, is dropped |
| `SplitReaderLaws.DataIsReturned` | src/compio.rs:2310-2315 | Data is returned at once and noted as activity |
| `SplitReaderLaws.ControlIsOffered` | src/compio.rs:2287-2325 | A Ping or Pong is offered with its payload and the time it was met; an offer left by a cancelled call stands |
| `SplitReaderLaws.OfferIsSettled` | src/compio.rs:2317-2334 | With room the request is queued and its message returned; without a driver the connection is over |
| `SplitReaderLaws.ErrorIsReported` | src/compio.rs:2337-2350 | A held-back parse error is reported once the driver has been told, if it can be told |
| `SplitReaderLaws.ReadIsReturned` | src/compio.rs:2352-2375 | What is parsed from a read is returned as if it had been there before; a fragment is activity, an error starts closing |
| `SplitReaderLaws.EndOfStreamIsTold` | src/compio.rs:2386-2394 | The end of the stream is told to the driver and reported |
| `SplitReaderLaws.DriverEndsTheWait` | src/compio.rs:2395-2401 | A driver that ends while the reader waits ends the call with its cause |
| `SplitStreams.AnswerEchoesOnlyEarlyClose` | src/protocol.rs:339-348 | Over every run of a stream, split at any time, and every run of reader and driver on one queue: the answer is the last frame, answers the first Close returned, and echoes it if and only if that Close was parsed before the split or has no reason |
| `SplitStreams.LateCloseGetsEmptyAnswer` | src/compio.rs:2613-2627 | At an input: a Close with a reason read after the split is returned with it, and answered with an empty Close |
| `SplitStreams.PongsAnswerPings` | src/compio.rs:2590-2612 | Over every run: the driver answers Pings that were returned to the caller, each at most once and in order |
| `SplitStreams.RunKeepsInv` | src/compio.rs:2095-2159 | Every run keeps both halves, their cells and the queue in step: until a Close is returned nothing parsed is missing, and the first returned is the first parsed |
| `SplitStreams.SplitTakesOver` | src/compio.rs:2095-2159 | At the split the reader takes over batch and error, sending stays open exactly if the stream was open and no error is known, and the driver starts with the settings of the stream |
| `Inboxes.ProcessInOrder` | src/compio.rs:2009-2034 | Parsing into a batch keeps: returned, then batch, then unread is what arrived |
| `Inboxes.ArriveInOrder` | src/compio.rs:220-232 | So does reading more |
| `Inboxes.AnswerIsForFirstClose` | src/compio.rs:2058-2078 | The reason the protocol answers with is that of the first Close returned |
| `UnifiedSafety.NextTurnIsSafe` | src/compio.rs:1714-1840 | Every turn of the receive loop keeps the stream invariant and takes nothing back |
| `UnifiedSafety.HandleMessageIsSafe` | src/compio.rs:2038-2082 | Handling one message: Pongs, Close answers and write failures |
| `UnifiedSafety.HandleDeadlineIsSafe` | src/compio.rs:1873-1919 | Acting on heartbeat deadlines: automatic Pings and timeout Closes |
| `UnifiedSafety.ReadMoreIsSafe` | src/compio.rs:1764-1840 | Reading under the closing budget, under the heartbeat, or freely |
| `UnifiedSafety.SendIsSafe` | src/compio.rs:1922-1939 | Sending: only on an open stream; a Close fixes the budget |
| `UnifiedSafety.CloseCallIsSafe` | src/compio.rs:1963-1988 | Closing, with immediate shutdown of the send half where configured |
| `UnifiedSafety.FlushIsSafe` | src/compio.rs:1991-2007 | Flushing: a failure closes the stream |
| `UnifiedSafety.SendingIsOrderly` | src/compio.rs:1714-2082 | Over every run: whole frames plus at most one final cut frame, at most one Close, only Pongs after it, a failed write closes the stream, at most one read is started after the closing deadline |
| `UnifiedSafety.NothingIsTakenBack` | src/compio.rs:1635-1640 | Over every run: the state never moves back, the closing deadline is fixed once, a closed stream encodes and returns nothing more, a shut send half writes nothing more |
| `UnifiedSafety.NothingIsWrittenAfterFailure` | src/compio.rs:1991-2007 | Over every run: after a write failed or was given up no call writes an octet |
| `UnifiedSafety.DeliveryIsOrderly` | src/compio.rs:1714-1840 | Over every run: results are a wire-order prefix of the accepted messages, a Close or error is the last result, a parse error comes after every message accepted before it |
| `UnifiedDelivery.AcceptedCloseIsReturned` | src/compio.rs:2042-2058 | Once a Close is accepted, the turns return everything before it and then the Close, whatever the transport does to them and with other calls between, if and only if none of those other calls fails |
| `UnifiedDelivery.FailedFlushLosesTheClose` | src/compio.rs:1991-2007 | At an input: a text and a Close are accepted in one turn, a flush fails, and no later call returns them |
| `UnifiedLaws.PingIsAnswered` | src/compio.rs:2038-2055 | A Ping taken while the send half is open, no Close is in its batch and the closing budget is not spent is answered in its turn with its payload and then returned; if the Pong cannot be written the stream ends with the error of the deadline that ran out, or of the lost connection |
| `UnifiedLaws.MessageIsReturned` | src/compio.rs:2038-2082 | Every other message but a Close is returned, and nothing is written |
| `UnifiedLaws.PongsAnswerPings` | src/compio.rs:2038-2055 | Over every run: the Pongs that receiving encodes are, one to one and in order, those for the Pings that had to be answered; all of these were returned, but for one whose Pong broke the stream |
| `UnifiedLaws.MessageIsActivity` | src/compio.rs:1720-1730 | Every message taken reaches the heartbeat, a Pong as an answer |
| `UnifiedLaws.CloseIsAnswered` | src/compio.rs:2057-2078 | A Close is returned and ends the stream; it is answered unless this side sent one, and the send half is shut once all is flushed |
| `UnifiedLaws.ErrorIsReported` | src/compio.rs:1733-1737 | A held-back parse error is reported and ends the stream |
| `UnifiedLaws.DueDeadlineActs` | src/compio.rs:1739-1749 | A deadline that is reached is acted on before anything is parsed: the due Ping is sent and outstanding, a silent or idle peer gets its notice |
| `UnifiedLaws.BufferIsParsed` | src/compio.rs:1751-1762 | What is buffered becomes the next batch, its error waits behind it, and a fragment is activity |
| `UnifiedLaws.OpenRead` | src/compio.rs:1787-1840 | A read on an open stream brings its octets, the end or an error; one that a deadline interrupts acts on the deadline first, and on the recovery limit if that runs out |
| `UnifiedLaws.ClosingRead` | src/compio.rs:1764-1786 | Under the closing budget one late read is allowed and counted; a wait that runs out, or a turn after the late read, ends the stream |
| `UnifiedLaws.SendIsWritten` | src/compio.rs:1922-1939 | A message of any kind sent on an open stream is written; later sends do nothing |
| `UnifiedLaws.SentCloseStartsBudget` | src/compio.rs:1922-1939 | Sending a Close starts the closing budget and stops the heartbeat, and nothing else sent does |
| `UnifiedLaws.CloseIsWritten` | src/compio.rs:1963-1988 | A close sends the Close and, where configured, shuts the send half or gives up the stream |
| `UnifiedLaws.FlushIsDone` | src/compio.rs:1991-2007 | A flush leaves nothing behind, or gives up the stream |
| `Handshake.StepAdds` | src/compio.rs:1714-2082 | A step adds at most one frame: what the application sends on an open stream, the Ping that is due, the notice of a timeout reached, or the answer to the next accepted message |
| `Handshake.EveryFrameHasOrigin` | src/compio.rs:1714-2082 | Every frame of every run was added by a step that had such a reason for it |
| `Handshake.EndsUnderstandEachOther` | src/compio.rs:2038-2082 | Two streams on ordered channels, every interleaving, crossing Closes included: each returns a prefix of what the other encoded and no parse error, and if both return a Close each encoded exactly one |
| `Handshake.ReplyEchoesTheClose` | src/protocol.rs:940-961 | Whichever end replies, its reply is its only Close and is, code and reason, the one Close the other end encoded |
| `StreamObjects.UnifiedStream.Turn` | src/compio.rs:1714-1840 | The object, which owns protocol, heartbeat, buffers and transport, takes exactly the machine's turn: same state, same octets on the wire, same result |
| `StreamObjects.UnifiedStream.Next` | src/compio.rs:1714-1840 | The receive call is the run of turns up to the first that returns or ends the stream |
| `StreamObjects.UnifiedStream.HandleIncomingMessage` | src/compio.rs:2038-2082 | Handles a message taken off the reversed stack as the machine does |
| `StreamObjects.UnifiedStream.HandlePeerClose` | src/compio.rs:2058-2078 | Answers an accepted Close through the protocol object, flushes and shuts as the machine does |
| `StreamObjects.UnifiedStream.HandleDeadline` | src/compio.rs:1873-1919 | Sends the due Ping or the timeout Close as the machine does |
| `StreamObjects.UnifiedStream.ProcessReadBuf` | src/compio.rs:2009-2031 | Refreshes batch, Close flag and held-back error from the protocol object as the machine does |
| `StreamObjects.UnifiedStream.ReadSome` | src/compio.rs:1764-1840 | Reads under the budget, until a deadline or freely as the machine does |
| `StreamObjects.UnifiedStream.Send` | src/compio.rs:1922-1939 | Sends as the machine does, and reports exactly whether the frame was flushed |
| `StreamObjects.UnifiedStream.Close` | src/compio.rs:1963-1988 | Closes as the machine does, and reports failure exactly if flush or shutdown failed |
| `StreamObjects.UnifiedStream.Flush` | src/compio.rs:1991-2007 | Flushes as the machine does |
| `StreamObjects.NewUnifiedStream` | src/compio.rs:1564-1602 | A new stream stands for the machine's initial state, leftover octets included |
| `Heartbeats.NextDeadlineIsFirst` | src/heartbeat.rs:65-109 | The reported deadline is the first active one, Pong before Idle before Ping at the same time, and none exactly if none is active |
| `Heartbeats.PingsAlternateWithAnswers` | src/heartbeat.rs:111-173 | Over every run Pings and their answers in time alternate, payload by payload, where in time is said by flush and deadline: never two outstanding, never a new one before the exact answer |
| `Heartbeats.TimelyPongClears` | src/heartbeat.rs:146-168 | Traffic clears the outstanding Ping if and only if it is the Pong with its payload, behind the flush and before the deadline; one before the flush is remembered; activity is noted in every case |
| `Heartbeats.DuePingIsIssued` | src/heartbeat.rs:111-125 | A Ping is issued exactly if Pings are on, none is outstanding, the interval has passed, and the idle timeout does not come first |
| `Heartbeats.FlushStartsTimeout` | src/heartbeat.rs:127-144 | The Pong timeout starts with the flush, unless the Pong was faster |
| `Heartbeats.AnsweredPingsNeverTimeOut` | src/heartbeat.rs:65-168 | In every run in which the Pong of each Ping with a deadline comes before that deadline, no Pong deadline is ever reached |
| `ProtocolLaws.FirstDeadline` | src/heartbeat.rs:48-60 | A new heartbeat first waits for idle timeout or Ping interval, whichever is on and shorter, in seconds and up to 64 bits |
| `ProtocolLaws.PongDeadline` | src/heartbeat.rs:127-144 | A flushed Ping is to be answered within the configured seconds |
| `ProtocolLaws.PingCarriesNumber` | src/heartbeat.rs:111-125 | A Ping carries its number in eight octets, most significant first |
| `Heartbeats.OnlyFlushSetsDeadline` | src/heartbeat.rs:127-139 | Only a flush gives a Ping its Pong deadline, and nothing moves it |
| `Heartbeats.StaleAndLatePongsDoNotClear` | src/heartbeat.rs:146-168 | A foreign, stale or late Pong leaves the outstanding Ping alone |
| `Heartbeats.EarlyPongIsHonoured` | src/heartbeat.rs:127-139 | A Pong that overtakes the flush is honoured at the flush, after any traffic |
| `Heartbeats.StopIsPermanent` | src/heartbeat.rs:170-173 | After a stop no event has any effect and no deadline is reported |
| `Heartbeats.NoncesDiffer` | src/heartbeat.rs:111-125 | Distinct nonces give distinct payloads |
| `Heartbeats.SilentPeerIsGivenUp` | src/heartbeat.rs:65-139 | From every state of every prompt run a silent peer is given up within Ping interval plus Pong timeout of its last activity |
| `Heartbeats.HeartbeatTimer.Due` | src/heartbeat.rs:111-125 | Issues a Ping exactly if one is due |
| `Heartbeats.HeartbeatTimer.Flushed` | src/heartbeat.rs:127-139 | Starts the Pong deadline, or drops a Ping already answered |
| `Heartbeats.HeartbeatTimer.Receive` | src/heartbeat.rs:146-168 | Notes activity and reports exactly the timely answer |
| `Heartbeats.HeartbeatTimer.Halt` | src/heartbeat.rs:170-173 | Stops for good |
| `Heartbeats.BoundedCloseReason` | src/heartbeat.rs:185-196 | The longest prefix of at most 123 octets that does not cut a character; it is valid text |
| `Corking.CorkBuffer.Write` | src/cork.rs:120-123 | Appends to what is pending, and reports whether the open buffer is within its size |
| `Corking.CorkBuffer.WriteBytes` | src/cork.rs:131-137 | Appends to what is pending, by copy or as a segment |
| `Corking.CorkBuffer.PushSegment` | src/cork.rs:141-151 | Appends behind everything written before; no empty segment is queued |
| `Corking.CorkBuffer.FillWriteSlices` | src/cork.rs:162-176 | Offers non-empty slices that are a prefix of what is pending, all of it if there is room, and at least one if anything is pending |
| `Corking.CorkBuffer.Consume` | src/cork.rs:195-214 | Drops exactly the octets written from the front, at most all |
| `Corking.CorkBuffer.PendingBytes` | src/cork.rs:111-113 | The count is exact |
| `Corking.CorkBuffer.Uncork` | src/cork.rs:86-89 | Reports exactly whether anything is pending |
| `Corking.CorkBuffer.TakeBuffer` | src/cork.rs:220-222 | Moves the open buffer out from behind the segments |
| `Corking.UseCork` | src/cork.rs:99-229 | Over every sequence of writes and short drains: what was emitted, then what is pending, is everything written in call order |
| `Inflating.Decompress` | src/deflate.rs:399-504 | For every inflater that keeps its contract, every buffer growth and every sequence of final blocks: the whole message if it fits, the limit included, a refusal if it does not; damage is reported if what comes before it fits and is not reached behind more than one octet too many; a reliable inflater never runs into the call limit on messages below it |
| `Inflating.StreamsAreMeaning` | src/deflate.rs:473-500 | The streams found in a message, started anew behind each final block, together yield what the inflater outputs for it, and break exactly where it is damaged |
| `Compressing.DeflateDecoder.DecompressMessage` | src/deflate.rs:399-504 | The object with its reset and the inflater state left by earlier messages runs the bounded loop: everything the message yields if it fits the limit, a refusal if not, and of damage or size whichever comes first |
| `Compressing.DeflateEncoder.CompressMessage` | src/deflate.rs:189-286 | Drains the flush however small the output slices, with the markers the codec repeats for slices filled exactly, strips the trailer, and sends small or, without takeover, incompressible messages raw |
| `Compressing.OneMessage` | src/deflate.rs:189-286 | One message decodes to what was sent, however often markers are repeated, the histories agree again and the inflater is between blocks |
| `Compressing.EveryMessageArrives` | src/protocol.rs:1238-1275 | Over every message sequence, with or without takeover and with raw messages between, each decodes to what was sent |
| `CompressionLaws.WireByPosition` | src/deflate.rs:189-286 | Each message on the wire by its position: raw if small, else the codec's flush for it behind the window's part of all data compressed so far, or of nothing without takeover, up to the trailer; raw again if that does not shrink an independent message |
| `CompressionLaws.MessagesStandAlone` | src/deflate.rs:193-200 | Without takeover every message is read by a new decoder on its own |
| `CompressionLaws.EachSideKeepsItsParameters` | src/deflate.rs:522-572 | The server's parameters govern what the server sends, the client's what the client sends: history, window, independence |
| `CompressionLaws.DecoderForgets` | src/deflate.rs:399-419 | A decoder without takeover makes the same of a message whatever came before; one with takeover reads on |
| `CompressionLaws.MessageEndIsFirst` | src/deflate.rs:473-500 | A message ends at the first damage, or where a final block ends behind all of its own octets, else behind the trailer; a final block within it does not end it |
| `CompressionLaws.PoolTakesTurns` | src/compression.rs:138-166 | Messages large enough take the shared encoders in turn, small ones take none |
| `EmptyMessages.ArrivalConditionIsExact` | src/deflate.rs:189-286 | With takeover and without a threshold everything arrives if and only if no message but the first of a new encoder and the last of all is empty |
| `EmptyMessages.EmptyMessageLosesTheNext` | src/deflate.rs:189-286 | With every codec: of "a", an empty message and "b" the first two arrive and the third does not |
| `EmptyMessages.StrayTrailer` | src/deflate.rs:399-419 | An empty message whose flush gives nothing arrives, and leaves the inflater inside the header of a stored block |
| `EmptyMessages.CutPayloadIsReturned` | src/deflate.rs:473-500 | A payload cut inside a stored block is no error: it is returned with the appended trailer as content |
| `Compressing.ExchangeMessages` | src/deflate.rs:522-572 | Through encoder and decoder objects with their loops and limit: what arrives is what was sent, and only a codec failure, the call limit or a message above the limit stops it |
| `Compressing.ContextsAgree` | src/deflate.rs:522-572 | Client and server contexts of one configuration deliver in both directions |
| `Compressing.EverySharedMessageArrives` | src/compression.rs:138-166 | Any interleaving of any connections on a new shared pool: each message decodes at its own peer to what was sent |
| `Compressing.NegotiatedEndsAgree` | src/deflate.rs:708-776 | From negotiation to traffic: the client reads the response into the same parameters, exactly unless limited to 8 bits, and then messages arrive in both directions |
| `CompressedMessages.CompressedMessagesSurviveCutting` | src/protocol.rs:1097-1275 | Any list of messages, compressed in one role and cut anywhere, is received whole in the other if and only if every body is within the frame limit; otherwise all before the first larger one, which is refused for its size |
| `CompressedMessages.LargestMessageCanBeRefused` | src/protocol.rs:1238-1275 | At any size: with takeover a message of exactly the frame limit can be refused, because its body is larger |
| `CompressedMessages.NoTakeoverNeverGrows` | src/deflate.rs:274-286 | Without takeover no body is larger than its message |
| `CompressedMessages.FragmentsAreCompleted` | src/protocol.rs:1111-1235 | Any fragmentation of a compressed or plain message, with control frames between, gives the controls in place and then what the whole message decompresses to |
| `CompressionLaws.PlainFramesAreTakenPlainly` | src/protocol.rs:1097-1210 | Frames of uncompressed messages are taken as without the extension, errors included; only the early check of an unfinished text continuation waits for its end |
| `CompressionLaws.CompressedMessageIsTaken` | src/protocol.rs:1111-1235 | The last frame of a compressed message returns what its octets decompress to, if within the limit and, for text, valid; otherwise it is refused for size, damage or text |
| `CompressionLaws.CompressedFragmentIsCollected` | src/protocol.rs:1188-1210 | Fragments of a compressed message are collected in order and within the limit, whatever octets they have |
| `Negotiation.ParseDeflateOffer` | src/deflate.rs:575-604 | The loop over parameters follows its specification, early exits included |
| `Negotiation.FromParams` | src/deflate.rs:639-689 | The loop over parameters follows its specification |
| `Negotiation.OfferIsItsParams` | src/deflate.rs:639-689 | An offer is well-formed exactly if each parameter is and none is repeated, and then holds what they say |
| `Negotiation.BitsRoundTrip` | src/deflate.rs:692-705 | A printed window size parses back |
| `Negotiation.ParsedBitsArePrinted` | src/deflate.rs:692-705 | Nothing else parses: only 8 to 15 without leading zeros |
| `NegotiationLaws.OfferByName` | src/deflate.rs:639-689 | To the letter: an offer stands exactly if each parameter is one of the four, none twice, flags without value, windows the decimals 8 to 15, and then says what they say |
| `NegotiationLaws.ParameterForms` | src/deflate.rs:583-604 | A name alone, a plain value and a quoted value are parameters; a quote on one side, or no text, is not |
| `NegotiationLaws.ParamsByPosition` | src/deflate.rs:582-604 | All parameters are read, in order, or the whole offer is refused |
| `NegotiationLaws.TrimmedIsMiddle` | src/deflate.rs:575-604 | Trimming removes the blanks at both ends, and nothing else |
| `NegotiationLaws.PiecesAreTheText` | src/deflate.rs:575-604 | The pieces between separators contain none and give the text again |
| `Selection.NegotiateServerDeflate` | src/deflate.rs:708-776 | The loop over offers follows its specification, the early return included |
| `Selection.NeverAborts` | src/deflate.rs:736-744 | The early return never fires |
| `Selection.FirstAcceptableIsChosen` | src/deflate.rs:708-776 | The first acceptable offer is chosen, and none exactly if none is acceptable |
| `Selection.ChoiceKeepsLimits` | src/deflate.rs:716-774 | Exactly which offers are acceptable; the choice keeps policy and offer limits, and the decoder holds at least the window the client may use |
| `NegotiationLaws.ChoiceIsExact` | src/deflate.rs:716-774 | What is chosen, exactly: the smaller window on each side, 9 for a client held to 8, no takeover where either wants none, a limit announced where asked for or smaller |
| `NegotiationLaws.JudgedExactly` | src/deflate.rs:708-776 | A text is chosen exactly if it makes an offer that neither limits the server to 8 bits nor leaves a limited client window unasked for; else it is declined |
| `NegotiationLaws.ConfigIsExact` | src/deflate.rs:118-138 | What a client makes of a response, exactly, with the default level and threshold; windows of 8 bits are refused |
| `Selection.HeaderRoundTrip` | src/deflate.rs:33-54 | Every response header parses back into exactly what it announces |
| `NegotiationLaws.HeaderText` | src/deflate.rs:33-54 | The response header, letter by letter |
| `Selection.ConfigRoundTrip` | src/deflate.rs:118-149 | Printing a configuration and parsing it back recovers its four negotiated parameters |

## Left out

- The split reader and writer driver are step machines on values, not classes: they interleave at every suspension point, so update in place and aliasing of their fields are not captured.
- UnifiedSafety.SendingIsOrderly: a read counts as started after the closing deadline by the clock reading taken just before it.
- A write of the split driver may be taken in any parts; that a given-up write is finished by the kernel later is allowed.
- Raw and typed messages share one message type; the wrapper types and their accessors are not modelled.
- Calls after the first error of parser or protocol: a connection ends there.
- Turning compression on in the middle of a frame (`set_compression`), and compressed text in the incremental text check.
- The compressed protocol types as objects, and the halves they are split into; their frame handling is a function on values.
- A codec error with context takeover leaves an encoder whose history the peer does not share; what is sent after one is not modelled.
- zlib, memory growth and raw pointers: codecs are functions with a contract, buffers are sequences.
- Inflating.Decompress: the codec is given by a contract on its calls and by what its inflater makes of the octets read so far; of the format of DEFLATE only stored blocks are spelled out.
- EmptyMessages.ArrivalConditionIsExact: needs that the codec's output for a message, read behind a stray trailer, is not that message (`NeverEchoes`); without it the loss is proved for messages of up to two octets and for outputs that do not begin with a zero octet.
- Compressing.OneMessage: decodes in one call without a size limit; `Compressing.DeflateDecoder.DecompressMessage` brings in the loop and the limit.
- Compressing.EveryMessageArrives: without frames, loops and limit; `Compressing.ExchangeMessages` brings in the loops and the limit, `CompressedMessages.CompressedMessagesSurviveCutting` the frames.
- The library validator that checks whole text at once: validity is the grammar itself.
- Messages.ChunksDoNotMatter: the kind of the error is not fixed, because partial text is checked before the size of the message.
- Cancelling a read, or a call of the unified stream, in mid-operation: documented as unsafe in the source.
- Guaranteed delivery of every Pong by the split driver: a later Ping replaces a deferred one.
- The timer object of the split driver, which only avoids re-arming a sleep; timers may fire at any time in the model.
- Process-wide nonce wrap-around after 2^64 Pings.
- The batch writer on top of the cork buffer, capacity reservation and direct access to the open buffer.
- Tokio streams, HTTP/1 handshake, HTTP/2, HTTP/3, TLS, io_uring, pub/sub, multiplexing, client connect, metrics and configuration builders.
