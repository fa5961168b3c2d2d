# TPT Chassis: verified model of the communication, update and safety cores

This project models the deterministic core of TPT Chassis, a vehicle operating system written in Rust, and proves
properties of it with Dafny 4.11. `dafny verify dfyconfig.toml` checks everything.

| module | models |
|---|---|
| `IsoTp`, `IsoTpFormat`, `IsoTpTheorems`, `IsoTpStreams` | the ISO-TP segmenter and the reassembling link (ISO 15765-2): the frames byte by byte, one message, and one message after another |
| `SimCan`, `SimCanTheorems` | the simulated broadcast bus with bounded receive queues |
| `Uds`, `UdsHistory`, `UdsResponses`, `UdsEndpoint` | the diagnostic server: session, security level, watchdog, data store (ISO 14229-1), what it answers and what a tester sees of it |
| `UdsOverIsoTp`, `EndToEnd` | diagnostics over ISO-TP, and both over the simulated bus |
| `Ota`, `OtaLifeCycle`, `OtaSafety` | the A/B update engine over its RAM storage backend: one update from start to end, and every run with power loss at any point |
| `Telemetry`, `Interlock` | the telemetry ring and the actuator interlock, nested to any depth |
| `Signals`, `LinChecksum`, `SomeIp` | signal packing, the classic LIN checksum, the SOME/IP message codec |

Where the source updates state in place, the model is a class or an array method whose contract equates the new
state with a function of the old one (`IsoTpLink.Feed` with `FeedFrame`, `UdsServer.Handle` with `Respond`,
`OtaEngine.Stage` with `AfterStage`, the bus with `SimCan.Apply`). The properties are proved about those functions,
over every input, every reachable state and every run.

Conventions. A byte is an integer from 0 to 255; shifts and masks by constants are written as division, remainder
and addition. Slices are sequences. Two data types stand for traits: `Uds.DataProvider` for `UdsDataProvider` and
`Interlock.Autonomy` for `AutonomyStack`; `SignatureScheme::verify` is an arbitrary predicate. Where Rust would abort on
an index out of range, `feed` and `handle` have a result of their own (`Panicked`, `Aborted`), so neither has a
precondition on what it is given; an `Endpoint` whose server aborted serves nothing more. Lengths are unbounded
integers, that is, `usize` is taken to be wide enough for every SOME/IP length.

## Where the code and its documentation differ

The model follows the code.

- `feed` treats every byte of a Consecutive Frame as data, but `encode_message` pads its last frame to 8 bytes
  (core/src/isotp.rs:145-148 and 214-217). The encoder's own frames therefore bring a message back exactly when it
  has 1 to 7 bytes or fills its last frame. Trimmed frames always do, unless it is empty. Results that take a `Framing`
  hold for both.
- `recover` is documented as idempotent (core/src/ota.rs:383). It is, exactly when no candidate is pending.
- The engine is documented as writing the inactive slot (core/src/ota.rs:416-420), but `stage` never reads the journal,
  so this is up to the caller. What follows from which discipline, and what does not, is proved.
- `handle` is documented as returning `None` when the response does not fit (core/src/uds.rs:238). That is true of
  negative responses only. Positive ones are written without a check, so a session change into 3 bytes takes effect and
  then aborts. A buffer is safe for every provider, server and request if and only if it has at least 10 bytes.
- `feed` cannot tell one message from another: a Consecutive Frame with the expected number is taken for the message in
  progress. If one message breaks off and another of its length is picked up at that frame, a mixture is completed that
  nobody sent. An in-order delivery of a long message is safe from this, whatever came before, if and only if frame 0
  comes first or none of it arrives.
- `EcuReset` does not stop the watchdog, a session change does not lock, and an unknown session gets no response.
- A send on the simulated bus succeeds even if every receiver drops the frame (sim/src/can.rs:86-92).
- SOME/IP messages that are not requests are accepted with any protocol version, which decoding forgets.

## Model

| member | source | states |
|---|---|---|
| IsoTp.IsoTpLink.constructor | core/src/isotp.rs:95-103 | a new link is idle with a zeroed buffer |
| IsoTp.IsoTpLink.Feed | core/src/isotp.rs:106-160 | the in-place state machine has exactly the effect and result of `FeedFrame`, for every frame of up to 8 bytes, including those on which it aborts |
| IsoTp.IsoTpLink.TakeSingle | core/src/isotp.rs:110-119 | its Single Frame arm likewise |
| IsoTp.IsoTpLink.TakeFirst | core/src/isotp.rs:120-133 | its First Frame arm |
| IsoTp.IsoTpLink.TakeConsecutive | core/src/isotp.rs:135-157 | its Consecutive Frame arm |
| IsoTpFormat.ErrorsExactly | core/src/isotp.rs:106-160 | each error, and the abort, for every frame and link, in terms of the frame bytes and of what the link is waiting for |
| IsoTpFormat.EventsExactly | core/src/isotp.rs:106-160 | each event likewise |
| IsoTpFormat.NeverPanicsExactly | core/src/isotp.rs:106-134 | no frame aborts a link of capacity N if and only if N is at least 7 and less than 256 |
| IsoTp.EncodeMessage | core/src/isotp.rs:181-223 | the loop stores exactly the padded frames of the message that fit, leaves the rest of the array alone, and reports their number, an overflow (for 0x1000 bytes or more and no others) or a short array |
| IsoTpFormat.LimitIsDeclarable | core/src/isotp.rs:42-43 | the longest message is the longest that a First Frame can declare in its 12 bits |
| IsoTpFormat.FrameHeads | core/src/isotp.rs:186-214 | the protocol bytes of every frame: a length in 4 or in 12 bits, or the sequence number |
| IsoTpFormat.FramesCarryMessage | core/src/isotp.rs:186-221 | conservation: the frames carry the bytes of the message, all of them, once and in order |
| IsoTpFormat.PaddedFramesCarryMessage | core/src/isotp.rs:186-221 | padded, they carry the message and then zeros up to the room they have |
| IsoTpFormat.RoomIsTight | core/src/isotp.rs:207-221 | there is no frame too many |
| IsoTp.ChunkIsPadded | core/src/isotp.rs:213-219 | each iteration's index, sequence number and chunk give frame `count` of the specification |
| IsoTp.StoreChunk | core/src/isotp.rs:213-217 | stores one more frame of the specification behind those already there |
| IsoTpTheorems.LinkHoldsTransfer | core/src/isotp.rs:120-157 | after any frames at all the link is receiving exactly when an observer of the results sees a transfer in flight, with its declared length between 7 and N, and the buffer begins with the data of the First Frame and every Consecutive Frame accepted since |
| IsoTpTheorems.ReassemblyIsExact | core/src/isotp.rs:110-157 | every completed message is a Single Frame's data, or all bytes in flight at exactly the declared length |
| IsoTpTheorems.RejectionLeavesLink | core/src/isotp.rs:106-160 | a rejected frame changes nothing, except that an overflowing Consecutive Frame has advanced the sequence number |
| IsoTpTheorems.LossyDelivery | core/src/isotp.rs:106-223 | over an in-order channel that loses and repeats frames, every completion is the message sent, and it completes exactly when every frame got through, although sequence numbers wrap after 16; the link may be in any state if it is idle or frame 0 comes first |
| IsoTpTheorems.LossyCompletionPoint | core/src/isotp.rs:135-157 | under the same condition, the completing frame of a long message is the one that closes the coverage, so there is only one |
| IsoTpTheorems.LossyCompletions | core/src/isotp.rs:106-223 | the whole list of completions of a lossy delivery: a long message once or not at all, a short one as often as it arrives |
| IsoTpTheorems.LossyLeavesOpen | core/src/isotp.rs:106-223 | a lossy delivery leaves the link waiting exactly when a First Frame arrived and some other frame did not |
| IsoTpStreams.Splice | core/src/isotp.rs:135-157 | if one message breaks off and another of the same length is picked up at that frame, exactly the mixture of both is completed |
| IsoTpStreams.FreshStartExactly | core/src/isotp.rs:120-157 | a lossy delivery of a message of more than 7 bytes, as trimmed frames, completes its own message or nothing after any earlier traffic, be it arbitrary frames or lossy deliveries of other messages, if and only if frame 0 comes first or nothing arrives |
| IsoTpStreams.LossyFraming | core/src/isotp.rs:106-223 | the completions of a lossy delivery of the encoder's own padded frames as well as of trimmed ones, for every message and any link state that is idle or given frame 0 first: as trimmed if the framing carries the length, and otherwise none, with the link left waiting from the First Frame on |
| IsoTpStreams.LossyStream | core/src/isotp.rs:106-223 | for any sequence of lossy deliveries, padded or trimmed, in which one that finds the link waiting begins with frame 0, exactly the messages that got through whole and have a length the framing carries are completed, in order |
| IsoTpTheorems.ConsecutiveFrameStep | core/src/isotp.rs:135-157 | how a link some frames into a message, possibly 16 or more behind, answers each later frame |
| IsoTpTheorems.TrimmedRoundTrip | core/src/isotp.rs:106-223 | every message of 1 to 4095 bytes that fits the link comes back from its trimmed frames, from any link state, with the exact result of every call |
| IsoTpTheorems.TrimmedCompletions | core/src/isotp.rs:106-223 | from any link state, the trimmed frames complete their message once and nothing else, and nothing if it is empty |
| IsoTpTheorems.LastFrameCompletes | core/src/isotp.rs:151-153 | the last trimmed frame completes the message and leaves the link idle |
| IsoTpTheorems.EmptyMessageIsRejected | core/src/isotp.rs:113-115 | the frame of an empty message is always rejected |
| IsoTpTheorems.PaddedRoundTripExactly | core/src/isotp.rs:145-153 | from any link state, the encoder's own frames complete their message, once, if and only if it has 1 to 7 bytes or its last frame is full, and otherwise complete nothing |
| IsoTpTheorems.PaddedNeverCompletes | core/src/isotp.rs:145-153 | otherwise they never complete anything, in any order, with any loss and repetition, on a link that is idle or given frame 0 first, which waits from the First Frame on |
| IsoTpTheorems.PaddedLastFrameOverflows | core/src/isotp.rs:146-148 | in order, exactly the last of them is rejected, with an overflow, and the link goes on waiting |
| SimCan.SimCanNetwork.SetBusOff | sim/src/can.rs:60-62 | only the fault flag changes |
| SimCan.SimCanNetwork.Node | sim/src/can.rs:70-78 | a fresh node with an empty queue is attached last |
| SimCan.SimCanNetwork.BroadcastFrame | sim/src/can.rs:81-94 | the loop over shared queues offers the frame to every queue but the sender's, and to none while the bus is off |
| SimCan.SimCanNode.Send | sim/src/can.rs:108-119 | a send fails exactly while the bus is off, and otherwise is a broadcast |
| SimCan.SimCanNode.Recv | sim/src/can.rs:121-126 | takes the oldest frame of this node's queue and changes no other queue |
| SimCanTheorems.RecvExactly | sim/src/can.rs:121-126 | after every history, `recv` returns the oldest frame that the node accepted and was not yet handed, and fails exactly when it was handed all of them |
| SimCanTheorems.StateOfRun | sim/src/can.rs:33-50 | no queue ever holds more than 16 frames; the queues are the nodes attached so far |
| SimCanTheorems.AcceptedExactly | sim/src/can.rs:86-92 | a node accepts an offer exactly when its queue has room, in the order of sending |
| SimCanTheorems.DroppedExactly | sim/src/can.rs:88-91 | a frame is dropped only at a full queue, and accepted plus dropped is offered |
| SimCanTheorems.UndrainedKeepsFirst | sim/src/can.rs:86-92 | a node that does not drain its queue keeps the first 16 frames it is offered and drops all later ones |
| SimCanTheorems.FifoDelivery | sim/src/can.rs:81-126 | for every interleaving, what a node has received followed by its queue is the sequence of frames it accepted since it was attached |
| SimCanTheorems.TotalOrder | sim/src/can.rs:81-126 | in what two nodes have received and still hold, the frames of the sends that reached both are the same and stand in the same order |
| SimCanTheorems.FramesInOneOrder | sim/src/can.rs:81-126 | so if no frame is sent twice, any two nodes agree on the order of all frames that both of them see |
| EndToEnd.MessagesOverBus | sim/src/can.rs:81-126 | for any sequence of messages sent to a node over the bus, padded or trimmed, provided that each message which finds the link waiting for an earlier one begins with frame 0: its link completes exactly those all of whose frames arrived and whose length the framing carries, in the order of sending, whatever the node itself sends and whatever drains, bus-off settings, attaches and retransmissions fall in between |
| EndToEnd.MessageOverBus | sim/src/can.rs:81-126 | for one message and a link in any state, idle or given frame 0 first: it completes with nothing but the message, and exactly when every frame arrived and the framing carries its length |
| EndToEnd.DrainedMessageOverBus | sim/src/can.rs:81-126 | once drained, it completes exactly when the framing carries its length and every frame was sent with the bus on and room in the queue |
| EndToEnd.RequestsOverBus | sim/src/can.rs:81-126 | of any sequence of diagnostic requests sent over the bus, provided that each message which finds the link waiting for an earlier one begins with frame 0: exactly those that arrive are carried out, in order, with clock ticks anywhere, also between the frames of a request |
| EndToEnd.RequestOverBus | sim/src/can.rs:81-126 | a request of several frames, on a link that is idle or given frame 0 first, is carried out exactly once if all frames arrive and the framing carries its length, and otherwise leaves the server and its responses untouched |
| Uds.UdsServer.constructor | core/src/uds.rs:180-187 | a server starts in the default session, locked, with no watchdog |
| Uds.UdsServer.Tick | core/src/uds.rs:212-234 | counts down, and reverts session, security and watchdog on the tick that runs out |
| Uds.UdsServer.Handle | core/src/uds.rs:239-352 | the next server state, the response buffer and how the call ends are `Respond`'s, for every request and every buffer, also when it aborts with part of the response written |
| Uds.UdsServer.Nrc | core/src/uds.rs:354-363 | writes a negative response, or nothing into fewer than 3 bytes |
| Uds.UdsServer.HandleSecurity | core/src/uds.rs:293-318 | seed and key requests, with every wrong length, key and sub-function |
| Uds.UdsServer.HandleRead | core/src/uds.rs:319-336 | the value behind a three-byte head, or the refusal due, with the server unchanged |
| Uds.UdsServer.PutValue | core/src/uds.rs:331-335 | head and value are in place, or the bytes before the abort |
| Uds.UdsServer.HandleWrite | core/src/uds.rs:337-350 | the lock comes before every other check; the store becomes what the provider makes it |
| UdsHistory.Watchdog | core/src/uds.rs:212-234 | the counter is 5 less the ticks since the latest TesterPresent, always absent or 1 to 5, and a tick fires exactly when it is the fifth, whatever requests interleave |
| UdsHistory.StateIsHistory | core/src/uds.rs:239-318 | unlocked exactly when a correct key was accepted with no reset or firing since; extended exactly when the latest session change, reset or firing was a change to 0x03 |
| UdsHistory.StoreChangesUnlockedOnly | core/src/uds.rs:338-345 | the store changes only in a write made while a correct key is in force |
| UdsHistory.NoKeyNoChange | core/src/uds.rs:303-345 | a run without a correct key leaves the store as it began |
| UdsResponses.StoreIsWrites | core/src/uds.rs:337-345 | over every run the store is the initial one with exactly the writes made under a correct key applied to it, each with its own identifier and data |
| UdsResponses.ReadsBack | core/src/uds.rs:319-350 | with a provider that keeps what it accepts, a read returns the data of the latest accepted write to its identifier, whatever happens in between |
| UdsResponses.ReservedStaysHidden | core/src/uds.rs:328-330 | over every run without a correct key, a read of 0xF100 to 0xF1FF is refused, with 33 or, if there is no such value, with 31 |
| UdsResponses.PositiveRead | core/src/uds.rs:319-336 | any other read of a value of up to 7 bytes gets 62, the identifier and what the provider reads for it, and changes nothing |
| UdsResponses.AbortedRead | core/src/uds.rs:331-334 | into a buffer that is too short for it, the same read writes the head as far as it fits and aborts |
| UdsResponses.SeedAndKey | core/src/uds.rs:293-318 | the key that unlocks is the complement of the seed handed out, and no other |
| UdsResponses.RefusalsExactly | core/src/uds.rs:239-363 | which requests get which negative response code, for every server and request |
| UdsResponses.PositiveResponses | core/src/uds.rs:257-350 | the bytes of every other positive response, or the front of them before an abort |
| UdsHistory.ReservedReadsUnlockedOnly | core/src/uds.rs:328-336 | a reserved identifier's value is handed out only while a correct key is in force |
| UdsEndpoint.ConfidentialExactly | core/src/uds.rs:319-336 | providers that differ only in what reserved identifiers hold get the same answer to every request into every buffer if and only if the server is locked |
| UdsEndpoint.ConfidentialWithoutKey | core/src/uds.rs:236-363 | over a whole conversation without a correct key, every response, the server and its store are the same whatever the reserved identifiers hold |
| UdsHistory.ResponsesAreWellFormed | core/src/uds.rs:239-363 | every response that is returned is 7F, SID, NRC or starts with SID plus 0x40, and has 2 to 10 bytes, all inside the buffer |
| UdsHistory.AbortsExactly | core/src/uds.rs:236-350 | a call aborts exactly when the request would succeed and the buffer is shorter than its service needs: 4 bytes for a session change, 2 for a reset, a key or TesterPresent, 3 for a seed or a write, 3 and the value for a read |
| UdsHistory.NoneForWantOfRoomExactly | core/src/uds.rs:236-363 | `None` is returned exactly for requests that are empty, short of parameters or for a session that does not exist, and for other requests that will not succeed if fewer than 3 bytes are there for the negative response; never for a positive one |
| UdsHistory.SessionChangeAborts | core/src/uds.rs:270-281 | the request 10 03 into 3 bytes changes the session, writes 3 bytes and aborts |
| UdsHistory.TenBytesSufficeExactly | core/src/uds.rs:236-363 | no request to any server over any provider aborts on a buffer of n bytes if and only if n is at least 10 |
| UdsOverIsoTp.GatewayServes | core/src/uds.rs:486-502 | whatever frames and clock ticks arrive, in whatever order, the server is where handing over directly the completed messages and the ticks, in that order, would have put it |
| UdsOverIsoTp.EventsAreCompletions | core/src/uds.rs:486-502 | those messages are exactly the completions of the link |
| UdsOverIsoTp.TransportExactly | core/src/uds.rs:474-508 | sent as padded or as trimmed frames, any sequence of requests and ticks gives the same responses and the same server as handing over directly those requests whose length the frames carry |
| UdsOverIsoTp.TransparentExactly | core/src/uds.rs:474-508 | so, for a server that has not aborted and a response buffer of at least 10 bytes, the transport is transparent if and only if every request has such a length: 1 to 7 bytes or a full last frame when padded, any but 0 when trimmed |
| UdsOverIsoTp.TransportIsTransparent | core/src/uds.rs:474-508 | any sequence of non-empty requests and ticks gives the same responses and the same server sent as trimmed frames as handed over directly |
| UdsOverIsoTp.RequestOverWire | core/src/uds.rs:486-502 | one request, as padded or as trimmed frames, is carried out once if its length is one they carry and not at all otherwise, whatever the link was doing before |
| UdsOverIsoTp.FramesInFlight | core/src/uds.rs:486-502 | trimmed frames but the last leave the server alone |
| UdsOverIsoTp.LossyRequest | core/src/uds.rs:486-502 | with frames lost and repeated, padded or trimmed, on a link that is idle or given frame 0 first, a request of several frames is carried out once or not at all, one of a single frame as often as it arrives, and one whose length the framing does not carry never |
| UdsOverIsoTp.LossyRequests | core/src/uds.rs:486-502 | the same for any sequence of requests, provided that each request which finds the link waiting for an earlier one begins with frame 0: those that get through whole are carried out in order, with clock ticks anywhere |
| Ota.SlotState.ActiveSlot | core/src/ota.rs:122-129 | every valid state names slot 0 or 1 |
| Ota.JournalRoundTrip | core/src/ota.rs:132-169 | the journal codec is a bijection between valid states and the bytes it accepts |
| OtaLifeCycle.JournalBytes | core/src/ota.rs:132-169 | the two bytes of each journal state, and which bytes are refused |
| Ota.EncodeHeader | core/src/ota.rs:339-344 | writes the ten header bytes and no others |
| OtaLifeCycle.HeaderLayout | core/src/ota.rs:339-344 | which are "TPT1", the version 1, the slot and the length with its highest byte first |
| OtaLifeCycle.SignedLayout | core/src/ota.rs:433-441 | a signature covers the ten bytes and the payload, in that order |
| Ota.HeaderRoundTrip | core/src/ota.rs:347-363 | a header decodes to what it was made from, unless it names a slot that does not exist |
| Ota.HeaderRoundTripBack | core/src/ota.rs:347-363 | an accepted header is what its package encodes to |
| Ota.SignedBindsSlotAndImage | core/src/ota.rs:433-441 | the signed bytes determine the target slot and the image |
| Ota.ZephyrOtaStorage.constructor | zephyr/src/ota_storage.rs:88-100 | two zeroed slots of 1024 bytes, slot 0 active |
| Ota.ZephyrOtaStorage.WriteSlot | zephyr/src/ota_storage.rs:125-133 | writes exactly the given bytes of one existing slot, or fails and changes nothing |
| Ota.ZephyrOtaStorage.ReadSlot | zephyr/src/ota_storage.rs:149-159 | fills the buffer with the given bytes of one existing slot, or fails and changes nothing |
| Ota.ZephyrOtaStorage.WriteState | zephyr/src/ota_storage.rs:179-183 | replaces the journal and nothing else |
| Ota.OtaEngine.Recover | core/src/ota.rs:388-414 | promotes a pending candidate, rolls a tested one back, and returns the slot then active |
| Ota.OtaEngine.Stage | core/src/ota.rs:421-456 | on any failure nothing changes and the first failing check is reported; otherwise the image is in its slot and the candidate is pending |
| Ota.OtaEngine.Promote | core/src/ota.rs:462-476 | only a pending candidate is promoted, with the other slot as fallback |
| Ota.OtaEngine.Commit | core/src/ota.rs:480-495 | only an image under test is committed |
| Ota.OtaEngine.Rollback | core/src/ota.rs:497-513 | only an image under test is rolled back; the slot returned is the one given up |
| OtaLifeCycle.StagedExactly | core/src/ota.rs:421-456 | a package is staged exactly if its length is right, fits the slot and 4096 bytes, its signature is accepted and its slot exists; every other package changes nothing |
| OtaLifeCycle.RefusalsExactly | core/src/ota.rs:428-451 | which error each other package gets |
| OtaLifeCycle.UpdateLifeCycle | core/src/ota.rs:421-513 | from a settled journal, an acceptable package for the inactive slot, staged, promoted and committed, is settled on with its payload in place; rolled back, it leaves the journal as it was; the old image is in charge until promotion and is never touched |
| OtaLifeCycle.UpdateRestarts | core/src/ota.rs:388-414 | on the way, one restart activates a staged image and the next gives it up; a committed one stays |
| OtaLifeCycle.CommandsOutOfPlace | core/src/ota.rs:388-513 | each command moves the journal in its own states and in no others |
| OtaSafety.CrashSafety | core/src/ota.rs:388-513 | over every run, with power lost at any point, if the last known good slot is spared, the journal points to it, its bytes are those it became good with, and two calls of `recover` return to it |
| OtaSafety.GoodSlotKeptExactly | core/src/ota.rs:388-513 | that hypothesis is exact: journal and bytes of the good slot are kept throughout a run if and only if no staging into it completes and none that is cut short changes a byte of it |
| OtaSafety.SparingIsNecessary | core/src/ota.rs:421-456 | the journal points to the last known good slot throughout a run if and only if no staging of the run completes into it |
| OtaSafety.GoodBytesKeptExactly | core/src/ota.rs:421-456 | a step, torn or not, keeps the good slot's bytes if and only if it writes elsewhere or writes what is already there |
| OtaSafety.StagingIntoFallbackLosesIt | core/src/ota.rs:444-454 | any staging into the fallback during a test overwrites the good image, after which two recoveries settle on the image that was never committed |
| OtaSafety.AccountsAreExact | core/src/ota.rs:421-456 | the bookkeeping holds exactly the contents that the run accounts for: byte for byte what a slot was shipped with, or what it held right after an event that wrote its whole payload there under a signature of its own that was checked |
| OtaSafety.SoundStepExactly | core/src/ota.rs:388-513 | a step keeps everything that runs or may run next accounted for if and only if it does not write, completes a staging while the other slot is accounted for, or is cut short with the payload whole, in the inactive slot of a settled journal, or leaving contents that are accounted for already |
| OtaSafety.UnchangedTearIsSafe | core/src/ota.rs:444-454 | on a sound device, power lost in a staging before any byte has changed is safe whatever the journal says |
| OtaSafety.SoundThroughoutExactly | core/src/ota.rs:388-513 | the same over whole runs: sound at every point if and only if every write is safe |
| OtaSafety.OnlyTrustedImagesBoot | core/src/ota.rs:388-513 | in terms of the run itself, the active slot, every candidate and every fallback hold, byte for byte, what they were shipped with or what a whole write under a checked signature left there, at every point, if and only if every write is safe |
| OtaSafety.DisciplineKeepsImagesAuthentic | core/src/ota.rs:388-513 | over whole runs, it is enough that settled journals stage the inactive slot and that power is lost in stagings from settled journals only |
| OtaSafety.InactiveSlotDisciplineIsSafe | core/src/ota.rs:416-420 | if every staging of a run is into the inactive slot of a settled journal, then at every point, wherever power fails, the active slot, every candidate and every fallback are authentic, every test has the other slot as fallback, and the last known good image is intact |
| OtaSafety.TornRestageBootsTornImage | core/src/ota.rs:388-397 | whenever a candidate is pending and a second staging of it is torn, the good slot is spared and `recover` boots the slot with just what the tear left, which is authentic if and only if the slot was shipped with those very bytes or an earlier whole write left them |
| OtaSafety.RecoverSettles | core/src/ota.rs:383-414 | two calls settle any state on its good slot without touching an image, and a third changes nothing |
| OtaSafety.RecoverIdempotentExactly | core/src/ota.rs:383-414 | one call is idempotent if and only if no candidate is pending |
| OtaSafety.MovesDescend | core/src/ota.rs:388-513 | every call that moves the journal without staging lowers its rank: pending 2, testing 1, active 0 |
| OtaSafety.Progress | core/src/ota.rs:388-513 | over every run, each completed staging pays for at most two moves and one activation of an uncommitted candidate |
| Telemetry.TelemetryRing.Push | core/src/safety.rs:203-209 | the records become the last N of the old ones and the new one |
| Telemetry.TelemetryRing.Iter | core/src/safety.rs:222-225 | yields the records oldest first |
| Telemetry.RingIsRecentHistory | core/src/safety.rs:187-225 | for every capacity and every history, the ring yields exactly the latest records, oldest first |
| Interlock.Interlock.Arm | core/src/safety.rs:77-84 | arms this layer and records it |
| Interlock.Interlock.Disarm | core/src/safety.rs:90-97 | disarms this layer and records it |
| Interlock.Interlock.Next | core/src/safety.rs:124-132 | the inner stack's command while armed, and a safe stop without asking it otherwise |
| Interlock.Interlock.HasControlNow | core/src/safety.rs:111-113 | control needs this layer armed and the inner stack in control |
| Interlock.Interlock.IngestSample | core/src/safety.rs:116-118 | samples go straight to the inner stack |
| Interlock.Interlock.constructor | core/src/safety.rs:64-70 | a new layer is disarmed, with an empty audit trail |
| Interlock.CommandReachesStack | core/src/safety.rs:143-154 | through any number of layers, a request reaches the innermost stack exactly when all are armed, and changes no lock |
| Interlock.IngestReachesStack | core/src/safety.rs:136-141 | through any number of layers, a sample always reaches the innermost stack and changes no lock |
| Interlock.GateIsProjection | core/src/safety.rs:111-162 | for every call history and every nesting depth, the inner stack is where it would be on its own after the calls let through; a command is the bare stack's own and comes out exactly while every layer is armed |
| Interlock.LocksAreHistory | core/src/safety.rs:77-102 | a layer is armed exactly when it was armed and not disarmed since, and its audit trail is its last 8 transitions |
| Interlock.AuditTrailTellsState | core/src/safety.rs:77-102 | a layer is armed exactly when its audit trail is not empty and its newest record is an arming |
| Signals.NewSignal | core/src/autosar.rs:158-163 | a layout is accepted exactly when it has 1 to 64 bits and stays inside the 64-bit payload |
| Signals.PackFailsExactly | core/src/autosar.rs:178-186 | packing fails exactly for values of 2 to the power of the length or more |
| Signals.PackBits | core/src/autosar.rs:187-188 | packing replaces the signal's bits and no others |
| Signals.LowIsPowerLessOne | core/src/autosar.rs:167-171 | the mask is the number the source computes |
| Signals.CoveredBit | core/src/autosar.rs:166-189 | after any list of packings, a covered bit comes from the last entry that covers it |
| Signals.UncoveredBit | core/src/autosar.rs:178-189 | a bit outside all layouts is untouched |
| Signals.LastPackedValueReadsBack | core/src/autosar.rs:166-189 | a signal unpacks to its packed value as long as nothing packed later overlaps it |
| Signals.OtherSignalsUndisturbed | core/src/autosar.rs:166-189 | a signal that overlaps nothing packed reads as before |
| Signals.DisjointShareNoBit | core/src/autosar.rs:166-171 | two signals are disjoint exactly if they share no bit |
| Signals.DisjointExactly | core/src/autosar.rs:166-189 | a signal survives every later packing of another if and only if they are disjoint |
| Signals.OrderIrrelevant | core/src/autosar.rs:178-189 | signals that do not overlap give the same payload in any order |
| LinChecksum.ComputeChecksum | core/src/lin.rs:115-124 | the loop computes the inverted sum in its closed form |
| LinChecksum.FoldIsEndAround | core/src/lin.rs:117-122 | the carried sum is 0 for all zeros and otherwise ((sum - 1) mod 255) + 1 |
| LinChecksum.ChecksumIgnoresOrder | core/src/lin.rs:115-124 | reordering the bytes goes undetected |
| LinChecksum.ReceiverSeesAllOnes | core/src/lin.rs:115-124 | adding the checksum to the data gives 0xFF |
| LinChecksum.UndetectedExactly | core/src/lin.rs:115-124 | a change of one byte goes undetected exactly when it swaps 0x00 and 0xFF and some other byte is not zero |
| SomeIp.EncodeHeader | core/src/someip.rs:197-211 | writes every header byte but the length, and fails exactly on fewer than 16 bytes |
| SomeIp.EncodeMessage | core/src/someip.rs:294-304 | writes exactly the encoding, length included, and fails exactly when it does not fit |
| SomeIp.WireLayout | core/src/someip.rs:197-304 | where ids, length, versions and payload are on the wire, byte by byte |
| SomeIp.WireCodes | core/src/someip.rs:64-120 | the byte of each message type and of each return code |
| SomeIp.NewMessageExactly | core/src/someip.rs:250-262 | a payload is refused exactly if it is longer than 1024 bytes |
| SomeIp.DecodeEncoded | core/src/someip.rs:310-328 | a message decodes to itself, whatever bytes follow |
| SomeIp.DecodesExactly | core/src/someip.rs:310-328 | a buffer decodes to a message if and only if it begins with its encoding, the version byte of a non-request aside |
| SomeIp.EncodingsArePrefixFree | core/src/someip.rs:294-328 | no encoding is the beginning of another |
| SomeIp.StreamRoundTrip | core/src/someip.rs:294-328 | a concatenation of encodings splits back into just its messages |
| SomeIp.EncodeDecoded | core/src/someip.rs:306-328 | re-encoding an accepted buffer gives its declared prefix with byte 12 set to 1 |
| SomeIp.ReencodesExactly | core/src/someip.rs:322-325 | it is reproduced exactly if and only if byte 12 was 1, as in every accepted request |
| SomeIp.PairRoundTrip | core/src/someip.rs:131-168 | id pairs and their 32-bit words correspond one to one |
| SomeIp.CodesRoundTrip | core/src/someip.rs:64-120 | type and return codes and their accepted bytes correspond one to one |

## Left out

- Signals.Word: a 64-bit word is its sequence of bits, with the bit operators defined bit by bit; `LowIsPowerLessOne` and `PackFailsExactly` tie it to the numbers.
- IsoTp.Frame: `feed` takes any slice; payloads of more than the 8 bytes of a CAN frame are not modelled.
- IsoTp.Trimmed: the library never cuts padding off; a CAN frame that carries only the used bytes is what a sender with the data length at hand would transmit.
- EndToEnd.Carries: CAN identifiers are not modelled; everything sent to the node in question belongs to the messages of one conversation.
- UdsOverIsoTp.TransportExactly: ticks fall between requests, not between the frames of one, where `LossyRequests` allows them.
- Flow control: `NeedFlowControl` is a result of `feed`; the frame that answers it and its timing are not modelled.
- `OtaStorage` backends over flash and over files, and their write errors: the RAM backend never fails to write the journal.
- `DemoSigner` and `Ed25519Signer`: nothing proved depends on how signatures are computed.
- The LIN and SOME/IP bus simulators: the same queues as the CAN simulator, which is generic in the frame here.
- CAN, LIN and SOME/IP identifier checks, LIN parity, digital I/O: range checks and finite domains.
- The lane-keeping stack and the flight-control encoder: a few clamps, and an encoder without a decoder.
- Foreign function bindings, the command line, templates and examples: no logic of their own.
