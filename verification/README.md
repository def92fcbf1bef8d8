# Verified model of the EOP server and client

EOP is a length-prefixed binary protocol (ADR-003). A C++ server keeps a registry of nodes that register, are queried
and send heartbeats; a C library is the client. This project models both sides in Dafny and proves what they keep over
all inputs, all byte streams and all interleavings. `dafny verify dfyconfig.toml` checks it.

## How it is built

| modules | what they model | form |
|---|---|---|
| Bytes, Wire | the frame layout and the two parsers on byte sequences | functions, the reference for the rest |
| Sockets | recv and send under an adversary that cuts up the stream and makes calls fail | class following a script |
| MessageSerializer, ClientEnvelope | frame building, reading and sending on both sides | loops and arrays, proved against Wire |
| NodeRegistry, HeartbeatMonitor, WorkQueue | the shared objects | classes, proved against functions on values |
| Sessions, ConnectionWorker | handlers, dispatch and the per-connection loop | relation per frame; methods proved against it |
| NodeLifecycle, ...Invariants, ...Results | sessions and monitor sharing the registry | step machine with a log |
| Pipeline, PipelineResults | accept thread, queue, condition variable, workers, shutdown | step machine |
| Alignment, AlignmentResults | one client handle and one session over byte streams | step machine |
| Resumption | reading on after a call that failed inside a frame | functions on byte sequences |
| EopClient | the client handle and what it takes from the process | classes and methods |
| SpanExporter, SessionIds, Backoff | span batches, session ids, the probe's retry loop | step machine, functions, methods |

A step machine gives the atomic steps of each thread; a run is any list of steps each of which is enabled in its turn,
and the results are about all runs. The machines use the same functions (`AfterRegister`, `AfterEnqueue`, `ServerParse`
and so on) that the classes and methods are proved against.

## What does not hold as one might expect

- A node with punctual heartbeats can be taken OFFLINE by the monitor: it registers, the tick takes its snapshot, the
  node sends its first heartbeat, and the same tick marks it. `PunctualNodeMarkedIff` gives the exact condition,
  `HeartbeatAfterSnapshotIsLost` the run.
- A call need not return the reply to its own request, because the server sends an unsolicited welcome and the client
  does not compare ids. `OwnReplyIff` gives the exact condition, `BehindLaw` how it is lost and regained,
  `RegisterGetsTheWelcome` a run. The reconnect probe registers without draining the welcome, so the ACK it checks is
  the welcome. The header's comment that the id is echoed from the request (`eop_client.h:67`) holds only for aligned
  calls.
- `activeConnections` does not come back to zero after shutdown if a socket was still queued. `ShutdownReleasesEverything`
  gives the exact condition, `DroppedSocketStaysCounted` a run. For the same reason ADR-002's "every enqueued fd is
  processed by exactly one worker" holds only of sockets dequeued before `stop`.
- The comment at `connectionWorker.cpp:47` says the active id is updated on a successful REGISTER; the code does it for
  any string `node_id`. So a session whose REGISTER was refused takes the owner's node OFFLINE when it hangs up
  (`RefusedRegisterTakesTheNode`), and one that registers two names leaves the first ONLINE
  (`SecondNameOrphansTheFirst`). `OfflineIff` says for every run what takes a node OFFLINE, and
  `OnlineNodeIsAnsweredFor` when the session that registered an ONLINE node still answers for it: the last name sent
  decides.
- `buildFrame` computes all sizes in 32 bits, so its buffer does not always have the size of the frame. `BufferFitsIff`
  gives the exact condition, which `BuildFrame` requires, and `WrappedBufferIsEmpty` the least size that fails it.
  `eop_envelope_deserialize` adds in 32 bits too (`AcceptedPayloadIsPresentIff`, `BareHeaderAccepted`).
- ADR-003 asks for ERR_UNKNOWN_TYPE on an unknown type; the code sends ERR_MALFORMED. `MalformedIff` says exactly which
  frames get that code: it does not tell an unsupported type from a bad payload.
- A client call that fails inside a frame leaves the handle usable but out of step. `ReadsOnIff` says exactly after which
  further calls, failed ones included, it reads on correctly. From inside a text payload that happens at the end of the
  frame if and only if what was left of it is a multiple of 14 bytes long, the size of a header, or no frame follows
  (`TextRealignsIff`, `BrokenCallRealignsIff`).

## Assumptions

- JSON parsing and printing are parameters: a parse result with the fields the handlers look at, and any printer.
- Time is a clock that does not go backwards. `rand()`, allocation, dialling and the socket calls are arbitrary.
- Lock-protected sections and operations on the atomic counter are atomic steps, in one order that all threads see.
- Accepted sockets carry tokens that are never reused, in place of descriptor numbers.
- `main.cpp` does not start the heartbeat monitor; the composition is the one of `heartbeatLifecycleTest.cpp:160-187`.
- `maxClients` is below 2^32, as its type has it.

## Model

| member | source | states |
|---|---|---|
| `MessageSerializer.BuildFrame` | sd-2026-404-motivation-lost-development/src/messageSerializer.cpp:54-93 | The buffer filled through the moving offset is exactly the ADR-003 frame of the message, for every payload whose 32-bit length sums do not wrap; payloads of 4 GiB and more are truncated first. |
| `MessageSerializer.BufferFitsIff` | sd-2026-404-motivation-lost-development/src/messageSerializer.cpp:56-60 | For every payload size: the buffer, sized in 32-bit arithmetic, has exactly the size of what is written into it if and only if head and (truncated) payload stay below 2^32, and is never larger. |
| `MessageSerializer.WrappedBufferIsEmpty` | sd-2026-404-motivation-lost-development/src/messageSerializer.cpp:56-60 | The concrete failing size: a payload of 2^32 - 14 bytes gets a buffer of size 0, and every smaller one fits. |
| `MessageSerializer.WriteU32BE` | sd-2026-404-motivation-lost-development/src/messageSerializer.cpp:63-69 | Four shifted bytes at the offset are the big-endian value; what was written before stays. |
| `Bytes.BigEndianWeighs` | sd-2026-404-motivation-lost-development/src/messageSerializer.cpp:63-69 | The four bytes weigh what the number is, the first one counting most. |
| `Bytes.BigEndianKeepsOrder` | sd-2026-404-motivation-lost-development/src/messageSerializer.cpp:63-69 | The bytes compare lexicographically as the numbers do: the most significant byte comes first on the wire. |
| `MessageSerializer.TruncationIsModulo` | sd-2026-404-motivation-lost-development/src/messageSerializer.cpp:56-57 | The 32-bit cast keeps type and id and cuts whole multiples of 4 GiB off the payload. |
| `Wire.FrameByteByByte` | sd-2026-404-motivation-lost-development/src/messageSerializer.cpp:54-93 | Every byte of a frame by its position: length 10 + payload, version 1, type, id, payload length, payload. |
| `Wire.FramesWrittenOut` | sd-2026-404-motivation-lost-development/src/messageSerializer.cpp:54-93 | Two frames written out byte by byte: an empty ACK to message 1 and a HEARTBEAT numbered 258. |
| `Wire.ServerRoundTrip` | sd-2026-404-motivation-lost-development/src/messageSerializer.cpp:121-174 | The server's parser gives back a framed message if and only if its payload is at most 65536 bytes, else an error, and leaves the stream at the next frame. |
| `Wire.ClientRoundTrip` | sd-2026-404-motivation-lost-development/client/src/eop_client.c:352-485 | The client's parser gives back every framed message and leaves the stream at the next frame. |
| `Wire.ParsersAgreeIff` | sd-2026-404-motivation-lost-development/src/messageSerializer.cpp:131-173 | For all byte strings: server and client parser deliver one and the same message if and only if version is 1, the two length fields agree and the payload is complete and within the cap; then both stop at the same byte. |
| `Wire.ServerIgnores` | sd-2026-404-motivation-lost-development/src/messageSerializer.cpp:155-173 | Changing the version or a byte of payload_length changes nothing for the server. |
| `Wire.ClientIgnores` | sd-2026-404-motivation-lost-development/client/src/eop_client.c:352-435 | Changing a byte of frame_length changes nothing for the client. |
| `Wire.CutShort` | sd-2026-404-motivation-lost-development/src/messageSerializer.cpp:124-171 | A frame cut short at any byte is no frame to either side: each takes what there is and reports how the connection ended. |
| `Wire.ServerRejectsIff` | sd-2026-404-motivation-lost-development/src/messageSerializer.cpp:131-145 | The server gives up whatever comes next if and only if frame_length is below 10 or above 65546, and has then taken four bytes. |
| `Wire.ClientRejectsIff` | sd-2026-404-motivation-lost-development/client/src/eop_client.c:422-428 | The client gives up whatever comes next if and only if there is a whole head whose version is not 1. |
| `Wire.ConsistentIffFrame` | sd-2026-404-motivation-lost-development/src/messageSerializer.cpp:54-93 | Those byte strings are exactly the frames of messages within the cap, followed by anything. |
| `Wire.StreamReads` | sd-2026-404-motivation-lost-development/src/messageSerializer.cpp:121-174 | From the concatenated frames of any list of messages the server reads exactly those before the first oversized one, and ends with the connection's own ending or with an error there. |
| `Wire.StreamRoundTrip` | sd-2026-404-motivation-lost-development/src/messageSerializer.cpp:54-174 | A list of messages survives framing and repeated reading if and only if every payload is within the cap. |
| `Wire.StreamCutShort` | sd-2026-404-motivation-lost-development/src/messageSerializer.cpp:121-174 | Behind whole messages a frame that is cut short, or nothing, leaves the ending of the connection as the last word. |
| `Wire.EncodeInjective` | sd-2026-404-motivation-lost-development/src/messageSerializer.cpp:54-93 | Concatenated frames determine the messages: no two lists share their bytes. |
| `MessageSerializer.ReadExact` | sd-2026-404-motivation-lost-development/src/messageSerializer.cpp:18-51 | For every cutting of the stream into receives, with EINTR retried: success if and only if enough bytes arrive, then exactly those bytes are taken, else the status of the event that ended the stream. |
| `MessageSerializer.ReadFrame` | sd-2026-404-motivation-lost-development/src/messageSerializer.cpp:121-174 | Refines the pure parser on the byte sequence, for every receive schedule, and consumes exactly 4 + frame_length bytes on success and 4 on a rejected length. |
| `MessageSerializer.ErrorFreeDeliversAll` | sd-2026-404-motivation-lost-development/src/messageSerializer.cpp:18-51 | A schedule of data and interruptions delivers all its bytes in order and ends in PEER_CLOSED. |
| `MessageSerializer.FirstStopDecides` | sd-2026-404-motivation-lost-development/src/messageSerializer.cpp:32-47 | The first event that is neither data nor an interruption ends the stream: EAGAIN as a timeout, any other failure as an error. |
| `MessageSerializer.ChunkingIsInvisible` | sd-2026-404-motivation-lost-development/src/messageSerializer.cpp:18-51 | Any two error-free schedules of the same bytes give the same frames and the same end. |
| `MessageSerializer.ScheduleRoundTrip` | sd-2026-404-motivation-lost-development/src/messageSerializer.cpp:121-174 | Whatever the schedule of partial receives and interruptions, reading framed messages within the cap returns exactly them and then PEER_CLOSED. |
| `MessageSerializer.SendAll` | sd-2026-404-motivation-lost-development/src/messageSerializer.cpp:176-199 | The peer gets a prefix of the buffer, as long as it takes bytes; true if and only if it got all of it, and then it takes that many bytes less from there on. |
| `MessageSerializer.FirstRefusalDecides` | sd-2026-404-motivation-lost-development/src/messageSerializer.cpp:180-196 | A sender gets rid of what the peer takes before the first refusal; an interruption is retried by the server and ends the client's send. |
| `ClientEnvelope.Serialize` | sd-2026-404-motivation-lost-development/client/src/eop_envelope.c:7-38 | Which error for which argument, in the order tested; the buffer is untouched on error and holds the envelope, and nothing else changed, on success. |
| `ClientEnvelope.Deserialize` | sd-2026-404-motivation-lost-development/client/src/eop_envelope.c:40-81 | Decodes to the fields the layout prescribes, or the error of the first test that fails, for every buffer. |
| `ClientEnvelope.EnvelopeRoundTrip` | sd-2026-404-motivation-lost-development/client/src/eop_envelope.c:7-81 | Serializing and deserializing gives back type, id and payload, whatever follows in the buffer. |
| `ClientEnvelope.DecodedIffSerialized` | sd-2026-404-motivation-lost-development/client/src/eop_envelope.c:7-81 | The decoder accepts, with a length that does not wrap, exactly what the serializer makes of the types 1 to 9, followed by anything. |
| `ClientEnvelope.UndecodableCodes` | sd-2026-404-motivation-lost-development/client/src/eop_envelope.c:40-81 | A cut-short envelope and another version are invalid arguments, a type outside 1 to 9 is an invalid type. |
| `ClientEnvelope.AcceptedPayloadIsPresentIff` | sd-2026-404-motivation-lost-development/client/src/eop_envelope.c:40-81 | An accepted buffer below 4 GiB contains the payload it declares if and only if header plus declared length stay below 2^32, because the sum is made in 32 bits. |
| `ClientEnvelope.BareHeaderAccepted` | sd-2026-404-motivation-lost-development/client/src/eop_envelope.c:40-81 | A concrete buffer that is accepted without its declared payload. |
| `ClientEnvelope.BuildersAgreeIff` | sd-2026-404-motivation-lost-development/client/src/eop_client.c:311-334 | The client's prefix and envelope equal the server's buildFrame output if and only if the payload length fits 32 bits. |
| `ClientEnvelope.BuiltFramesAreConsistent` | sd-2026-404-motivation-lost-development/client/src/eop_client.c:311-334 | What either builder makes of a payload within the cap is a frame that both parsers read alike. |
| `NodeRegistry.Registry.RegisterNode` | sd-2026-404-motivation-lost-development/src/nodeRegistry.cpp:6-32 | OK if and only if the id is non-empty and unknown or OFFLINE; the entry is then replaced and ONLINE, otherwise nothing changes; keys keep matching their entries. |
| `NodeRegistry.Registry.QueryNode` | sd-2026-404-motivation-lost-development/src/nodeRegistry.cpp:34-43 | Found if and only if registered, with the stored entry. |
| `NodeRegistry.Registry.ListNodes` | sd-2026-404-motivation-lost-development/src/nodeRegistry.cpp:45-55 | Every entry exactly once. |
| `NodeRegistry.Registry.SetOffline` | sd-2026-404-motivation-lost-development/src/nodeRegistry.cpp:57-70 | A known non-empty id becomes OFFLINE with the current time; nothing else changes. |
| `NodeRegistry.Registry.UpdateLastSeen` | sd-2026-404-motivation-lost-development/src/nodeRegistry.cpp:72-86 | True if and only if the node is known and ONLINE; only then, and only its last_seen_at, changes. |
| `HeartbeatMonitor.Monitor.Collect` | sd-2026-404-motivation-lost-development/src/heartbeatMonitor.cpp:59-69 | The loop over the snapshot collects each stale ONLINE node exactly once and no other. |
| `HeartbeatMonitor.Monitor.Tick` | sd-2026-404-motivation-lost-development/src/heartbeatMonitor.cpp:55-86 | Undisturbed, one scan takes exactly the stale nodes OFFLINE. |
| `Sessions.HandledRepliesOnce` | sd-2026-404-motivation-lost-development/src/heartbeatHandler.cpp:10-27 | A HEARTBEAT gets no reply, every other frame exactly one. |
| `Sessions.ReplyDiscipline` | sd-2026-404-motivation-lost-development/src/connectionWorker.cpp:155-208 | For every frame sequence and any interference by other sessions: the frames sent are one per non-HEARTBEAT frame, in order, with that frame's id, type 3 if the handler's reply is an error and 2 otherwise, and what the codec prints for that reply. |
| `Sessions.AnswersTellTheEffect` | sd-2026-404-motivation-lost-development/src/registerHandler.cpp:31-108 | An answered frame changes the registry if and only if the answer is a registration ACK; then exactly its node became ONLINE and was unknown or OFFLINE before. |
| `Sessions.RegisterLaw` | sd-2026-404-motivation-lost-development/src/registerHandler.cpp:51-108 | A REGISTER with the four fields: an empty name is malformed, an ONLINE one a duplicate, any other is acknowledged and stored with exactly those fields, ONLINE and not yet seen. |
| `Sessions.StoredIsWhatWasSent` | sd-2026-404-motivation-lost-development/src/registerHandler.cpp:71-80 | A REGISTER that changed the registry carried exactly the name, address and capacity now stored under its id. |
| `Sessions.RegisterFrameTellsTheEffect` | sd-2026-404-motivation-lost-development/src/registerHandler.cpp:86-108 | The one frame sent for a REGISTER is an ACK if the registry changed and an ERROR if not. |
| `Sessions.QueryAfterRegister` | sd-2026-404-motivation-lost-development/src/queryHandler.cpp:91-128 | Asked at once for the node it registered, a session gets back the fields it sent. |
| `Sessions.QueryLaw` | sd-2026-404-motivation-lost-development/src/queryHandler.cpp:75-131 | A query with a string id is answered with the stored entry if there is one and not-found otherwise. |
| `Sessions.ListLaw` | sd-2026-404-motivation-lost-development/src/queryHandler.cpp:133-163 | A list request is answered with every entry exactly once. |
| `Sessions.HeartbeatLaw` | sd-2026-404-motivation-lost-development/src/heartbeatHandler.cpp:10-27 | A HEARTBEAT stamps the node the session goes by if that is ONLINE, and does nothing else. |
| `Sessions.RenamesIff` | sd-2026-404-motivation-lost-development/src/connectionWorker.cpp:158-186 | The session's name changes with every REGISTER that has a string id, refused and malformed ones included, and with nothing else. |
| `Sessions.EndsWithLastName` | sd-2026-404-motivation-lost-development/src/connectionWorker.cpp:158-220 | For every frame sequence the name under which a session ends is the last one it sent. |
| `Sessions.MalformedIff` | sd-2026-404-motivation-lost-development/src/connectionWorker.cpp:155-208 | A frame is answered ERR_MALFORMED if and only if its type is none of the four supported ones, or it is a REGISTER that does not validate, or a QUERY_NODE without a string id. |
| `Sessions.HandledKeepsIds` | sd-2026-404-motivation-lost-development/src/connectionWorker.cpp:155-208 | No frame removes a node or files it under a wrong key. |
| `ConnectionWorker.Outbox.Answer` | sd-2026-404-motivation-lost-development/src/connectionWorker.cpp:121-124 | Each reply is framed and handed to sendAll once; the wire holds all replies in order while they fit into the bytes the connection takes before it first refuses, and after that their first bytes and not all of them, as long as every reply can be framed. |
| `ConnectionWorker.HandleRegister` | sd-2026-404-motivation-lost-development/src/registerHandler.cpp:21-109 | Validation, registration and the one reply with its error code, as a function of registry and document. |
| `ConnectionWorker.HandleQueryNode` | sd-2026-404-motivation-lost-development/src/queryHandler.cpp:37-131 | One reply: the entry, not-found or malformed; the registry is not changed. |
| `ConnectionWorker.HandleListNodes` | sd-2026-404-motivation-lost-development/src/queryHandler.cpp:133-163 | One ACK with every entry exactly once. |
| `ConnectionWorker.Dispatch` | sd-2026-404-motivation-lost-development/src/connectionWorker.cpp:155-208 | One frame does exactly what the exchange relation says at the given time: registry, active node id and replies; a string node_id replaces the active one before validation and whatever the result. |
| `ConnectionWorker.Serve` | sd-2026-404-motivation-lost-development/src/connectionWorker.cpp:126-212 | The loop handles exactly the frames the byte stream parses to, each at its own time of the clock, whatever others do to the registry between two frames, and stops for good at the first read that is not OK. |
| `ConnectionWorker.HandleConnection` | sd-2026-404-motivation-lost-development/src/connectionWorker.cpp:34-222 | A whole session on any byte stream and schedule and with any interference by others: frames, replies, final registry with the last named node OFFLINE, and the disconnect reason; the wire holds all the replies if and only if the connection takes that many bytes before it first refuses. |
| `ConnectionWorker.EventGivesReason` | sd-2026-404-motivation-lost-development/src/connectionWorker.cpp:126-148 | Which event gives which disconnect reason: shutdown clean, silence idle timeout, failure abrupt if reset and error otherwise, with the frames before it handled and a cut-short one not. |
| `NodeLifecycleInvariants.StepInv` | sd-2026-404-motivation-lost-development/src/nodeRegistry.cpp:6-86 | Every step of every session and of the monitor keeps the invariant that ties registry, log, monitor and sessions. |
| `NodeLifecycleInvariants.RunInv` | sd-2026-404-motivation-lost-development/tests/integration/heartbeatLifecycleTest.cpp:160-187 | The invariant holds in every state any interleaving of sessions and monitor reaches. |
| `NodeLifecycleInvariants.TeardownInv` | sd-2026-404-motivation-lost-development/src/connectionWorker.cpp:214-247 | A session that closes takes OFFLINE the node its last REGISTER named, so a closed session never has the name of a node it registered and that is still ONLINE as its last one. |
| `NodeLifecycleInvariants.MarkInv` | sd-2026-404-motivation-lost-development/src/heartbeatMonitor.cpp:76-85 | Marking an id from an old snapshot, whatever happened since, keeps the invariant. |
| `NodeLifecycleResults.LifeByPositions` | sd-2026-404-motivation-lost-development/src/nodeRegistry.cpp:6-86 | Reading the log by positions: metadata come from the latest registration, last_seen_at of an ONLINE node from its latest heartbeat since, of an OFFLINE one from its latest setOffline. |
| `NodeLifecycleResults.RegistryIsItsHistory` | sd-2026-404-motivation-lost-development/src/nodeRegistry.cpp:6-86 | In every reachable state each entry is the one the log calls for, under its own non-empty key, and no other id is present. |
| `NodeLifecycleResults.RegistrationsAreSeparated` | sd-2026-404-motivation-lost-development/src/nodeRegistry.cpp:6-32 | Between two successful registrations of one id lies a setOffline of it, in every run. |
| `NodeLifecycleResults.IdsOnlyGrow` | sd-2026-404-motivation-lost-development/src/nodeRegistry.cpp:6-86 | Ids and history only ever grow along a run. |
| `NodeLifecycleResults.AcknowledgedIdStays` | sd-2026-404-motivation-lost-development/src/registerHandler.cpp:80-95 | An acknowledged registration's id is present in every later state. |
| `NodeLifecycleResults.StepsAreExchanges` | sd-2026-404-motivation-lost-development/src/connectionWorker.cpp:158-197 | Undisturbed, the machine's steps for REGISTER and HEARTBEAT are the session's handlers. |
| `NodeLifecycleResults.MonitorMarksExactlyTheStale` | sd-2026-404-motivation-lost-development/src/heartbeatMonitor.cpp:55-86 | A tick marks only nodes that were stale at its snapshot, however late it marks them, and by its end all of those. |
| `NodeLifecycleResults.PunctualNodeMarkedIff` | sd-2026-404-motivation-lost-development/src/heartbeatMonitor.cpp:55-86 | A finished tick takes a node with punctual heartbeats OFFLINE if and only if at the snapshot it had registered and not yet sent one. |
| `NodeLifecycleResults.NoFalseOffline` | sd-2026-404-motivation-lost-development/src/heartbeatMonitor.cpp:55-86 | A punctual node that gets a heartbeat in before the first snapshot after each registration is never taken OFFLINE by the monitor, in any interleaving. |
| `NodeLifecycleResults.HeartbeatAfterSnapshotIsLost` | sd-2026-404-motivation-lost-development/src/heartbeatMonitor.cpp:76-85 | A concrete run: snapshot, first heartbeat, marking; the node is OFFLINE at the moment it was heard. |
| `NodeLifecycleResults.SilentNodeIsOffline` | sd-2026-404-motivation-lost-development/src/heartbeatMonitor.cpp:55-86 | A tick that begins more than twice the interval after a known node was last heard leaves it OFFLINE unless it comes back meanwhile. |
| `NodeLifecycleResults.DetectionBound` | sd-2026-404-motivation-lost-development/src/heartbeatMonitor.cpp:38-86 | With ticks at most P apart, a node silent since t is OFFLINE at the end of the first tick after t + 2 x interval, which begins by t + 2 x interval + P. |
| `NodeLifecycleResults.TickBeginsInTime` | sd-2026-404-motivation-lost-development/src/heartbeatMonitor.cpp:38-53 | Once the clock has passed a moment by more than P, the first tick after that moment has begun, at most P after it. |
| `NodeLifecycleResults.SilentNodesAreDetected` | sd-2026-404-motivation-lost-development/src/heartbeatMonitor.cpp:38-86 | So once the clock passes t + 2 x interval + P a tick has begun in that window which, when it ends, leaves every node OFFLINE that has been silent since t. |
| `NodeLifecycleResults.OnlineNodeIsAnsweredFor` | sd-2026-404-motivation-lost-development/src/connectionWorker.cpp:158-186 | In every reachable state an ONLINE node was registered by one particular session, and that session is live and answers for it if and only if the last name it sent is the node's. |
| `NodeLifecycleResults.TeardownTakesIff` | sd-2026-404-motivation-lost-development/src/connectionWorker.cpp:241-247 | One step: a closing session takes an ONLINE node OFFLINE if and only if the last name it sent is the node's; otherwise the entry stays as it is. |
| `NodeLifecycleResults.OneNameSessions` | sd-2026-404-motivation-lost-development/src/connectionWorker.cpp:214-247 | With one name per session every ONLINE node has a live session, and with no live session every node is OFFLINE. |
| `NodeLifecycleResults.SecondNameOrphansTheFirst` | sd-2026-404-motivation-lost-development/src/connectionWorker.cpp:158-186 | A concrete run: one session registers two names and hangs up; the first stays ONLINE with no session left. |
| `NodeLifecycleResults.LeavesAreExplained` | sd-2026-404-motivation-lost-development/src/connectionWorker.cpp:214-247 | In every reachable state each session that has taken a node OFFLINE is closed, and the last name it sent is that node's. |
| `NodeLifecycleResults.OfflineIff` | sd-2026-404-motivation-lost-development/src/nodeRegistry.cpp:57-70 | In every reachable state a known node is OFFLINE if and only if it was taken OFFLINE since it last registered, and what took it was a closed session whose last name was the node's, whether or not it had registered it, or a scan that had found it stale. |
| `NodeLifecycleResults.OnlineUnlessTaken` | sd-2026-404-motivation-lost-development/src/connectionWorker.cpp:214-247 | A known node that no scan has taken is ONLINE as long as no closed session's last name is its own. |
| `NodeLifecycleResults.RefusedRegisterTakesTheNode` | sd-2026-404-motivation-lost-development/src/connectionWorker.cpp:158-186 | A concrete run for every id: a session that is answered ERR_DUPLICATE hangs up and takes the node OFFLINE, while the session that registered it is live and has named no other. |
| `WorkQueue.Queue.Enqueue` | sd-2026-404-motivation-lost-development/src/workQueue.cpp:5-20 | Appends and asks for one notification, or closes the socket after stop. |
| `WorkQueue.Queue.TryDequeue` | sd-2026-404-motivation-lost-development/src/workQueue.cpp:22-36 | Takes the head even when stopped, leaves when stopped and empty, else waits. |
| `WorkQueue.Queue.Stop` | sd-2026-404-motivation-lost-development/src/workQueue.cpp:38-58 | Closes what is queued in order, once; a second call does nothing. |
| `PipelineResults.StepInv` | sd-2026-404-motivation-lost-development/src/socketAcceptor.cpp:99-148 | Every atomic step of acceptor, workers and shutdown keeps ownership, counter, capacity, wakeup and order. |
| `PipelineResults.RunInv` | sd-2026-404-motivation-lost-development/src/threadPool.cpp:105-140 | All of it holds in every state any interleaving reaches, for any number of workers and any limit. |
| `PipelineResults.ClosedExactlyOnce` | sd-2026-404-motivation-lost-development/include/connectionWorker.hpp:67-77 | A socket is closed at most once, and is closed if and only if it was accepted and is neither held, queued nor served. |
| `PipelineResults.ServedByOneWorker` | sd-2026-404-motivation-lost-development/src/threadPool.cpp:105-140 | No two workers ever serve the same socket. |
| `PipelineResults.CapacityNeverExceeded` | sd-2026-404-motivation-lost-development/src/socketAcceptor.cpp:126-146 | activeConnections never exceeds the limit although test and increment are separate, and is exact until stop. |
| `PipelineResults.AdmittedIff` | sd-2026-404-motivation-lost-development/src/socketAcceptor.cpp:126-146 | In every run an accepted socket is admitted if and only if fewer than maxClients sockets are queued, with a worker or dropped by stop. |
| `PipelineResults.LimitIsReached` | sd-2026-404-motivation-lost-development/src/socketAcceptor.cpp:126-146 | While the counter is below the limit the next socket gets in and is counted. |
| `PipelineResults.AcceptorEndsIff` | sd-2026-404-motivation-lost-development/src/socketAcceptor.cpp:101-123 | The accept thread ends if and only if it sees the stop flag or accept fails for another reason than a signal. |
| `PipelineResults.OpenSocketsAreCounted` | sd-2026-404-motivation-lost-development/include/connectionWorker.hpp:67-77 | In every run a socket is closed before it stops being counted: open admitted sockets never exceed the counter, nor the limit. |
| `PipelineResults.CounterNeverWraps` | sd-2026-404-motivation-lost-development/include/connectionWorker.hpp:67-77 | In every reachable state each increment and decrement of the 32-bit counter is the arithmetic one. |
| `PipelineResults.AcceptorCounter` | sd-2026-404-motivation-lost-development/src/app/main.cpp:127-131 | Increment then enqueue by the single accept thread keeps the counter exact and within the limit. |
| `PipelineResults.WorkerWakeups` | sd-2026-404-motivation-lost-development/src/workQueue.cpp:22-36 | Every step of a consumer keeps it that, while anybody sleeps, there are no more queued sockets than woken workers and pending notifications. |
| `PipelineResults.NoStrandedSocket` | sd-2026-404-motivation-lost-development/src/workQueue.cpp:5-36 | No socket waits while a worker sleeps and nobody has been or is about to be woken. |
| `PipelineResults.ServedInAcceptOrder` | sd-2026-404-motivation-lost-development/src/workQueue.cpp:5-58 | What was dequeued, then drained, then is queued is what was enqueued; dequeuing follows the order of acceptance. |
| `PipelineResults.ShutdownReleasesEverything` | sd-2026-404-motivation-lost-development/src/workQueue.cpp:38-58 | When all threads have ended every accepted socket was closed once, and the counter is back at zero if and only if stop found the queue empty and nothing was enqueued after it. |
| `PipelineResults.MainOrderRefusesNothing` | sd-2026-404-motivation-lost-development/src/app/main.cpp:155-166 | With the acceptor joined before the queue is stopped nothing is ever enqueued after stop. |
| `PipelineResults.DroppedSocketStaysCounted` | sd-2026-404-motivation-lost-development/src/workQueue.cpp:50-54 | A concrete run in main's order, with all threads ended and everybody notified, that ends with the counter at one. |
| `PipelineResults.ShutdownTerminates` | sd-2026-404-motivation-lost-development/src/threadPool.cpp:69-98 | After notify_all the workers take a bounded number of steps together, whatever the others do, and each can always take its next: joining does not hang on the queue. |
| `AlignmentResults.RunInv` | sd-2026-404-motivation-lost-development/client/src/eop_client.c:306-502 | In every run the bytes in flight are exactly the unread requests and the unread rest of the frames sent, which are the greeting and one reply per question read; and up to the first call that breaks off inside a frame no call takes a frame that a later one caused. |
| `AlignmentResults.IdsSurviveReconnect` | sd-2026-404-motivation-lost-development/client/src/eop_client.c:182-309 | In every run the id counter equals the number of calls made on the handle, across reconnects, and each request carries its own number modulo 2^32. |
| `AlignmentResults.ServeIsAnExchange` | sd-2026-404-motivation-lost-development/src/connectionWorker.cpp:155-208 | The server step of the machine sends exactly what the session's handlers send for the frame, whenever that can be framed. |
| `AlignmentResults.HandleOutcomesAreSteps` | sd-2026-404-motivation-lost-development/client/src/eop_client.c:352-485 | Whatever a call of the handle comes to when it reads, the machine has that step, stopping at the same byte. |
| `AlignmentResults.CallsTakeInOrder` | sd-2026-404-motivation-lost-development/client/src/eop_client.c:352-501 | As long as no call before it broke off inside a frame, the n-th call since connecting that takes a whole frame takes the n-th of the greeting followed by the replies; it returns it, or fails if no memory is left for the response. |
| `AlignmentResults.ReplyOrigin` | sd-2026-404-motivation-lost-development/src/threadPool.cpp:119-138 | A call that does not take the greeting takes the reply to one particular earlier or same call, as many questions back as the client is frames behind. |
| `AlignmentResults.OwnReplyIff` | sd-2026-404-motivation-lost-development/client/src/eop_client.c:487-501 | As long as no call before it broke off, a call takes the reply to its own request if and only if it is a question and the client is no frame behind: the greeting and one reply per earlier question have been taken. |
| `AlignmentResults.OwnReplyAtBoundaryIff` | sd-2026-404-motivation-lost-development/client/src/eop_client.c:487-501 | In any run, whatever calls broke off before: a call that starts where frame n begins takes frame n, and gets its own reply if and only if it is a question and n is the number of questions so far. |
| `AlignmentResults.BehindLaw` | sd-2026-404-motivation-lost-development/client/src/eop_client.c:306-502 | For every stretch of calls: how far behind the client is grows by one for each question that takes no frame, shrinks by one for each HEARTBEAT that takes one, and changes by nothing else. |
| `AlignmentResults.StartsOneBehind` | sd-2026-404-motivation-lost-development/client/src/eop_client.c:306-502 | A connection starts one frame behind, the greeting, and is never ahead. |
| `AlignmentResults.AlignedStaysAligned` | sd-2026-404-motivation-lost-development/client/src/eop_client.c:306-502 | From any aligned position on, calls stay aligned as long as no question fails to take a frame and no call breaks off, and HEARTBEATs in between take none. |
| `AlignmentResults.AlignedIffDrained` | sd-2026-404-motivation-lost-development/src/connectionWorker.cpp:194-197 | While no question has failed to take a frame and no call has broken off, a call after the first frame gets its own reply if and only if some HEARTBEAT before it, whichever one, has taken a frame. |
| `AlignmentResults.UndrainedIsOneBehind` | sd-2026-404-motivation-lost-development/tests/integration/eop_reconnect_probe.c:74-98 | Without draining, the first question takes the greeting and every later one the reply to the question before it. |
| `AlignmentResults.RegisterGetsTheWelcome` | sd-2026-404-motivation-lost-development/tests/integration/eop_reconnect_probe.c:74-98 | Concrete runs, for any two payloads: REGISTER as message 0 is answered with the welcome, message 1, before the server has read it. |
| `AlignmentResults.RefusedClientGetsTheError` | sd-2026-404-motivation-lost-development/src/socketAcceptor.cpp:126-143 | Concrete runs, for any two payloads: over the limit the first call returns the ERROR frame with id 0, and the server has closed its end. |
| `AlignmentResults.ReadsOnFromBoundary` | sd-2026-404-motivation-lost-development/client/src/eop_client.c:352-485 | In every run the connection holds the stream from the byte the client has read up to, and calls that all succeed read the messages from n on if and only if frame n begins there. |
| `AlignmentResults.BrokenCallRealignsIff` | sd-2026-404-motivation-lost-development/client/src/eop_client.c:437-485 | In every run a client that a call has left inside a text payload gets to read the frames behind it if and only if the rest of the payload is a multiple of 14 bytes long or no frame follows. |
| `Resumption.ClientStreamRoundTrip` | sd-2026-404-motivation-lost-development/client/src/eop_client.c:352-485 | Call by call a client reads every list of framed messages back, with nothing left over. |
| `Resumption.ResumeIff` | sd-2026-404-motivation-lost-development/client/src/eop_client.c:352-485 | From any byte of a stream of frames on, calls that all succeed read the messages from n on and nothing else if and only if that byte is where frame n begins. |
| `Resumption.PartWayNeverResumes` | sd-2026-404-motivation-lost-development/client/src/eop_client.c:437-485 | After a call that stopped inside a frame no tail of the messages is read without a failed call in between. |
| `Resumption.ReadsOnIff` | sd-2026-404-motivation-lost-development/client/src/eop_client.c:306-502 | After any number of further calls from any byte, failed ones included, the client reads the messages from n on if and only if the bytes those calls took bring it to where frame n begins. |
| `Resumption.ArrivesAtFrameEndIff` | sd-2026-404-motivation-lost-development/client/src/eop_client.c:422-485 | When no 14-byte piece of what is left of a frame looks like a header, the calls that follow arrive exactly at its end if and only if what is left is a multiple of 14 bytes long or nothing follows. |
| `Resumption.RealignsAtFrameEndIff` | sd-2026-404-motivation-lost-development/client/src/eop_client.c:422-485 | A client that stopped at any byte of a frame, where no piece of the rest looks like a header, reads exactly the messages behind the frame after some number of failed calls if and only if the rest is a multiple of 14 bytes long or no frame follows. |
| `Resumption.TextRealignsIff` | sd-2026-404-motivation-lost-development/client/src/eop_client.c:437-485 | The same for every byte inside a text payload, where nothing looks like a header. |
| `EopClient.Connect` | sd-2026-404-motivation-lost-development/client/src/eop_client.c:52-145 | A handle is returned if and only if the host is given, the port in range, memory granted, and address, socket, connect, poll and SO_ERROR are all good; every failure has its code and leaves no block and no descriptor behind; success holds exactly one of each. |
| `EopClient.TryDial` | sd-2026-404-motivation-lost-development/client/src/eop_client.c:79-139 | The dialling sequence of connect: a descriptor is kept exactly on success, and each failure has its code. |
| `EopClient.DialOutcomes` | sd-2026-404-motivation-lost-development/client/src/eop_client.c:79-137 | Success, invalid argument, timeout and failed connect each if and only if dialling got to its stage and it went that way; an error pending on the socket is a failed connect. |
| `EopClient.Client.Reconnect` | sd-2026-404-motivation-lost-development/client/src/eop_client.c:182-265 | On each of its seven exits the mutex is given back once and the error set; the old socket is gone whatever happens, a new one is held if and only if address, socket, connect, poll and SO_ERROR are all good, the id counter survives. |
| `EopClient.Client.Disconnect` | sd-2026-404-motivation-lost-development/client/src/eop_client.c:170-180 | Gives back the handle's socket and block, and nothing else. |
| `EopClient.FreeResponse` | sd-2026-404-motivation-lost-development/client/src/eop_client.c:267-275 | Frees exactly the response's blocks, each once. |
| `EopClient.Transmit` | sd-2026-404-motivation-lost-development/client/src/eop_client.c:336-350 | The peer gets the prefix of the frame that it takes, whether the loop succeeds or not; it succeeds if and only if that is everything; EINTR is an error here; a failure frees the buffer and gives the mutex back. |
| `EopClient.RecvExact` | sd-2026-404-motivation-lost-development/client/src/eop_client.c:437-485 | A receive loop: success if and only if enough bytes arrive, then exactly those are taken and the mutex is kept; each failing exit sets its error, frees the payload being read if any and gives the mutex back. |
| `EopClient.ReceivePayload` | sd-2026-404-motivation-lost-development/client/src/eop_client.c:437-485 | The payload's block is kept if and only if memory and the whole payload were there and it is not empty; the mutex is kept exactly on success. |
| `EopClient.ReceiveReply` | sd-2026-404-motivation-lost-development/client/src/eop_client.c:352-485 | The three phases refine the client's pure parser for every schedule; the result is decided by the bytes, the end of the stream and the memory; on failure nothing is kept, the mutex included, and a wrong version or an unallocated payload leaves the stream right behind the header. |
| `EopClient.SendRequest` | sd-2026-404-motivation-lost-development/client/src/eop_client.c:311-350 | What is on the wire afterwards is the frame as far as the peer took it, or nothing if memory or type fail first; the mutex is kept exactly on success; the buffer is freed on every path; the result is decided by memory, type and stream. |
| `EopClient.CreateResponse` | sd-2026-404-motivation-lost-development/client/src/eop_client.c:487-501 | The response takes over the payload's block if memory is left, otherwise that block is freed; the mutex is given back either way. |
| `EopClient.ReplyVerdictIsParse` | sd-2026-404-motivation-lost-development/client/src/eop_client.c:352-485 | While memory lasts, reading succeeds if and only if the client's parser finds a frame, and fails with the code of its status. |
| `EopClient.SuccessIff` | sd-2026-404-motivation-lost-development/client/src/eop_client.c:292-502 | With three allocations granted, a call succeeds if and only if the type is valid, the peer takes the whole frame and a whole frame follows. |
| `EopClient.CallOutcomes` | sd-2026-404-motivation-lost-development/client/src/eop_client.c:292-502 | For every call and any memory: success, an invalid type, a timeout and a lost connection each if and only if the call came to exactly that, in terms of the bytes taken, the bytes and the ending that arrive and the blocks granted; all that is left is a lack of memory. |
| `EopClient.ClientStopDecides` | sd-2026-404-motivation-lost-development/client/src/eop_client.c:356-385 | For a client data is delivered up to the first event that is none: a poll that expires is a timeout, anything else an error, EINTR included. |
| `EopClient.SendCommand` | sd-2026-404-motivation-lost-development/client/src/eop_client.c:292-502 | On every path: mutex free again, no descriptor or temporary block left, only the response owned; one id used per accepted call; success and error are exactly what type, stream and memory decide, and so is how much of the frame went out; a success returns the next frame. |
| `EopClient.AnyCaller` | sd-2026-404-motivation-lost-development/client/src/eop_client.c:52-502 | Connecting succeeds if and only if arguments, memory and dialling allow it; any sequence of sends and reconnects from there to disconnect ends with exactly the blocks and descriptors held before, and uses the ids 0, 1, 2, ... modulo 2^32. |
| `SpanExporter.BatchExporter.Enqueue` | sd-2026-404-motivation-lost-development/src/otelScope.cpp:238-246 | Is the machine's enqueue step, and notifies from the 512th pending span on. |
| `SpanExporter.BatchExporter.Flush` | sd-2026-404-motivation-lost-development/src/otelScope.cpp:274-356 | Is the machine's wake, post and relock steps: everything pending goes out in order in one batch, no empty batch does, and the loop ends exactly when m_running is false. |
| `SpanExporter.BatchExporter.FinalFlush` | sd-2026-404-motivation-lost-development/src/otelScope.cpp:265-270 | Is the machine's join and final flush, after which nothing is pending. |
| `SpanExporter.SpansConserved` | sd-2026-404-motivation-lost-development/src/otelScope.cpp:238-356 | In every interleaving posted, then in flight, then pending spans are exactly the enqueued ones in order, although the lock is dropped during the post. |
| `SpanExporter.DestructorFlushesAll` | sd-2026-404-motivation-lost-development/src/otelScope.cpp:256-270 | After the destructor everything has been posted except what was enqueued after its flush; all of it if and only if nothing was. |
| `SpanExporter.FlusherExits` | sd-2026-404-motivation-lost-development/src/otelScope.cpp:256-270 | In every run the flusher runs until the destructor is called, takes at most three more steps from then on, and can always take one until it exits: the join returns. |
| `SessionIds.SessionIdIsFixed` | sd-2026-404-motivation-lost-development/src/sessionManager.cpp:9-16 | The padded hexadecimal text of every 64-bit value is its fixed-width form of 16 digits. |
| `SessionIds.SessionIdReadsBack` | sd-2026-404-motivation-lost-development/src/sessionManager.cpp:9-16 | An id is sixteen lower-case hexadecimal digits and they spell the counter. |
| `SessionIds.FixedKeepsOrder` | sd-2026-404-motivation-lost-development/src/sessionManager.cpp:9-16 | Fixed-width digits are injective, and their lexicographic order is the numeric order. |
| `SessionIds.SessionManager.NextSessionId` | sd-2026-404-motivation-lost-development/src/sessionManager.cpp:9-16 | The k-th call, in the order of the increments, gets the id of k, wrapping at 2^64. |
| `SessionIds.SessionManager.NextMessageId` | sd-2026-404-motivation-lost-development/src/sessionManager.cpp:18-21 | The k-th call gets k modulo 2^32. |
| `SessionIds.IdsUniqueAndAscending` | sd-2026-404-motivation-lost-development/src/sessionManager.cpp:9-16 | Any two of 2^64 consecutive calls get different ids, and later ones greater ids until the wrap. |
| `Backoff.Jitter` | sd-2026-404-motivation-lost-development/tests/integration/eop_reconnect_probe.c:65-72 | Within ten per cent of the base, for every value of rand(). |
| `Backoff.JitterReachesAll` | sd-2026-404-motivation-lost-development/tests/integration/eop_reconnect_probe.c:65-72 | Every value within ten per cent of the base is drawn for some random number. |
| `Backoff.CappedDelay` | sd-2026-404-motivation-lost-development/tests/integration/eop_reconnect_probe.c:177-206 | For every sequence of random numbers and any number of failures each delay from the fourth on is between 4500 and 5500 ms. |
| `Backoff.SleptBounds` | sd-2026-404-motivation-lost-development/tests/integration/eop_reconnect_probe.c:177-206 | Bounds on the time slept over any number of failed attempts from three on. |
| `Backoff.BoundsAreMet` | sd-2026-404-motivation-lost-development/tests/integration/eop_reconnect_probe.c:177-206 | The bounds are tight: random numbers that give exactly 32436 ms before the tenth attempt and exactly 47344 ms in all. |
| `Backoff.Retry` | sd-2026-404-motivation-lost-development/tests/integration/eop_reconnect_probe.c:177-206 | Stops at the first success or after ten attempts; the tenth attempt comes at least 32436 ms of sleep after the first, and all sleeps together take at most 47344 ms. |

## Left out

- Socket setup (socket, bind, listen, options, address conversion), signal and crash handlers, the shutdown watchdog:
  operating-system behaviour, present only as arbitrary outcomes.
- JSON text, ISO-8601 timestamps, log lines, metrics, the OTLP body and its HTTP post: library wrappers and output.
- Environment parsing in ServerConfig: one-branch range checks.
- Span attributes, timing and the thread-local stack of open scopes: would only add easy members.
- Error message texts and the thread-local error of calls made without a handle.
- Starting and stopping the heartbeat monitor; a tick may begin at any time in the model.
- Memory orders weaker than sequential consistency.
- Calls from several threads on one client handle: the mutex serialises them, and the model takes them one at a time.
- BuildFrame: requires the 32-bit size sums not to wrap, because past that the buffer is smaller than the frame and
  what the original does is undefined; `BufferFitsIff` says exactly when.
- HandleConnection: promises its effects only while every reply can be framed, because past that the original is
  undefined. Whether errno was ECONNRESET is an argument, because errno is left over from an earlier call when a length
  was rejected.
- Tick: is about a scan without interference; the interleaved one is in module NodeLifecycle.
- CallsTakeInOrder: is about the calls up to the first that breaks off inside a frame; `OwnReplyAtBoundaryIff` and the
  results after it are about the rest. Replies and requests that are cut short by a failed send are left out.
- RealignsAtFrameEndIff: is about the end of the frame that was left, and about a rest no piece of which looks like a
  header; a later boundary may be met by chance.
- Reconnect: has no null handle, because a method has a receiver; the original returns an error for one.
- Disconnect: has no null handle either; the original does nothing for one.
- DetectionBound: needs an earlier tick, because nothing bounds when the first one begins.
- SilentNodesAreDetected: does not bound how long a tick takes from its beginning to its end.
- NoFalseOffline: states a sufficient condition over the whole run; the exact one, tick by tick, is in
  `PunctualNodeMarkedIff`.
