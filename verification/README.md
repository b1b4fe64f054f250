# Verified models of the Asio servers

This project models the protocol logic of the repository's Asio servers and proves what that logic
keeps over every run: the length-prefixed readers, the send queues, the logic thread with its
condition variable, the message codec, and the whole coroutine server with all its threads and locks.

| file | models |
|---|---|
| `Bytes.dfy` | bytes, the signed 16-bit header field in either byte order, concatenation and subsequences |
| `FrameSpec.dfy` | 2-byte framing: the whole-stream parser, the incremental parser (S04), the exact-read machine (S07) |
| `SendQueue.dfy` | the outgoing side of an S04 session as a value, with its history |
| `EchoSpec.dfy` | the S04 session as a state machine over read and write completions, and its run theorems |
| `EchoSession.dfy` | the S04 classes `MsgNode`, `CSession`, `CServer`, each handler proved to be one transition of `EchoSpec` |
| `ExactReader.dfy` | the S07 session: two reading callbacks, proved to be the exact-read machine, and the echo through its send queue |
| `PartialWrites.dfy` | the S01 queue over `async_write_some`, as a value and as a class |
| `LogicQueue.dfy` | the logic thread, its producers and its stop, for both S08 and S12, and the S12 class |
| `WriteToken.dfy` | the S12 sending protocol, with any number of threads and the write issued outside the lock |
| `CoroutineFrames.dfy` | the S12 frame and the meaning of the coroutine reader |
| `CoroutineSession.dfy` | the S12 `SendNode`, the two critical sections of `Session`, the coroutine loop |
| `CoroutineServer.dfy` | the whole S12 server: sessions, logic thread, acceptor, completions, every mutex |
| `CoroutineReplies.dfy` | what a client of the S12 server reads, told from the bytes it sent and the handlers' answers |
| `CoroutineClosing.dfy` | why an S12 session is closed, what it still does then, and its entry in the map |
| `CoroutineProgress.dfy` | that the S12 server, left alone, comes to rest after a bounded number of steps, with everything answered |
| `IoContextPool.dfy` | the rotation of `get_io_context` |

How the parts fit together. A class method is tied by its `ensures` to a transition of a value model:
`CSession.HandleRead` changes `View()` exactly as `EchoSpec.Session.GotBytes` or `ReadFailed` does,
`LogicSystem.DealMsg` is a run of the `LogicQueue` machine, `Session.SendLocked` is
`Writer.LeaveSend`. The run theorems are then proved of the value models, and state what a run did in
terms of its events alone: the bytes that arrived, the messages given, the calls of `send`, the counts
reported. Asynchronous operations are
steps: a read of "some" bytes brings 1 to 2048 bytes or an error, an exact read brings exactly what was
asked for or an error, a whole write completes or fails after any part of its buffer, a partial write
reports 1 to n bytes or an error. No handler runs inside the call that starts the operation. Random
identifiers are a number, unique per session. Histories (`offered`, `accepted`, `wire`, `posted`,
`taken` and so on) are bookkeeping that no branch looks at, and are proved to be what the events say.

Places where the code differs from what its comments or its other parts suggest. The model follows the
code in each:

- `send` refuses when the size is greater than the limit, so a queue can hold limit + 1 entries, which `SendQueue.QueueFills` shows it does
  (`S04_APP_Protocol/server/src/session.cc:51`, `S12_Corotine_Server/server/src/session.cc:43`).
- When a header completes, the header node's count is not advanced
  (`S04_APP_Protocol/server/src/session.cc:117-122`), so it means something only while no header is
  parsed; `CSession.ReaderValid` is conditional on this.
- S01 takes the offset of the next message from `send_node_`, which the queue never sets
  (`S01_ApiStudy/AsyncApi/src/session.cc:83`). `PartialWrites.CompletedInv` gives the exact condition
  under which this goes wrong, `PartialWrites.SecondMessageFaults` a run in which it does.
- S07 does not return after removing a session with an oversized length
  (`S07_Simple_App_Protocol/server/src/session.cc:117-120`), so it goes on reading.
  `FrameSpec.DesignsAgreeOnStream` says when the two designs still deliver the same messages: exactly
  when the stream ends before the first oversized body does. `FrameSpec.DesignsPart` gives streams on
  which they do not.
- The S08 stop branch loops while the queue is empty (`S08_MsgID_CS/server/src/logic_sys.cc:60`), so it
  drains nothing, and the wait before it does not look at the stop
  (`S08_MsgID_CS/server/src/logic_sys.cc:54`). `LogicQueue.ExitDrains` states what holds at an exit,
  `LogicQueue.StopBranchSkipsTheQueue` gives a run that leaves a message behind, and
  `LogicQueue.NoExitWhileEmpty` says that without a new message there is no exit at all.
- S12 starts a session before it puts it on the map (`S12_Corotine_Server/server/src/server.cc:23-25`), so
  a session that ends at once can be removed before it is inserted. `CoroutineClosing.OnMapExactlyWhen` says
  who is on the map, `CoroutineClosing.RemovalCanBeLost` gives a run that leaves an ended session there.
- The S12 destructor sets and announces the stop without the mutex
  (`S12_Corotine_Server/server/src/logic_system.cc:22-23`); `LogicQueue.StopAnnouncement` says exactly
  when the announcement is lost, `LogicQueue.StopCanBeLost` gives a run in which it is.

## Model

| member | source | states |
|---|---|---|
| Bytes.ShortCodec | S04_APP_Protocol/server/src/session.cc:10-11 | a value survives the 2-byte field if and only if it is a signed 16-bit value, and every byte pair is the field of the value it decodes to |
| Bytes.ByteOrders | S04_APP_Protocol/server/src/session.cc:125-127 | in network order the first byte counts 256 times, in the host's order the second, with 65536 taken off when that byte is at least 128 |
| FrameSpec.ParseCharacterised | S04_APP_Protocol/server/src/session.cc:117-160 | the whole-stream parser returns messages and a remainder if and only if the stream is those frames in order and then that unfinished header or body, or a header announcing an oversized or a negative length |
| FrameSpec.NetworkFrame | S04_APP_Protocol/server/src/session.cc:123-160 | by its bytes: a client's frame with length 256 times the first byte plus the second, up to 2048, is delivered whole; a greater length is rejected; a first byte of 128 or more is a negative length |
| FrameSpec.HostFrame | S07_Simple_App_Protocol/server/src/session.cc:113-126 | the same of the exact-read machine with the second byte counting 256 times |
| FrameSpec.FrameBytes | S04_APP_Protocol/server/src/session.cc:6-14 | the frame written for a message, byte by byte, in either order |
| FrameSpec.FeedHead | S04_APP_Protocol/server/src/session.cc:102-173 | for bytes arriving inside a header, the five outcomes of a turn: still a header, rejected, undefined, inside a body, or a message and on with the rest |
| FrameSpec.FeedBody | S04_APP_Protocol/server/src/session.cc:177-209 | for bytes arriving inside a body: still inside it, or the message is completed and the rest read from a fresh header |
| FrameSpec.ParseResumes | S04_APP_Protocol/server/src/session.cc:95-210 | stopping the parser at any byte and feeding it the remainder gives the messages and state of parsing the stream in one piece |
| FrameSpec.ChunkingIndependence | S04_APP_Protocol/server/src/session.cc:95-210 | however a stream is cut into chunks, the incremental reader delivers the messages and ends in the state that the whole-stream parser gives |
| FrameSpec.DesignsAgreeOnStream | S07_Simple_App_Protocol/server/src/session.cc:103-146 | on a stream without an oversized length the exact-read machine delivers the parser's messages, stands at the same point and keeps the session on the map; it takes the session off the map exactly when the parser does; it delivers the same messages if and only if the stream does not reach the end of an oversized body, and otherwise more |
| FrameSpec.DesignsAgree | S07_Simple_App_Protocol/server/src/session.cc:45-52 | the same of the S04 parser over any chunking and the S07 machine over the same bytes, in either byte order and with empty messages included: same removals always, same messages exactly when no oversized body arrives whole |
| FrameSpec.HoldsBehindFrame | S07_Simple_App_Protocol/server/src/session.cc:117-126 | whether an oversized body arrives whole does not depend on the complete frames before it |
| FrameSpec.DesignsPart | S07_Simple_App_Protocol/server/src/session.cc:117-126 | on any frame with a body over the limit S04 delivers nothing and S07 delivers the body, the session being off the map in both |
| SendQueue.SendInv | S04_APP_Protocol/server/src/session.cc:48-65 | a send keeps: at most limit + 1 entries, one write in flight and it is the front, completed and queued frames are the accepted ones in order, the wire is the completed frames and a cut of the front only after a failure |
| SendQueue.SendAllInv | S04_APP_Protocol/server/src/session.cc:48-65 | the same for any list of sends, none of which disturbs what was queued before or what is on the wire |
| SendQueue.QueueFills | S04_APP_Protocol/server/src/session.cc:50-57 | without completions the queue grows with every send up to exactly 1001 entries, and stays there |
| SendQueue.SendAllSnoc | S04_APP_Protocol/server/src/session.cc:48-65 | a list of sends and one more is the longer list of sends |
| SendQueue.WroteInv | S04_APP_Protocol/server/src/session.cc:74-87 | a completed write finds its node at the front of the queue, and popping it and issuing the next keeps the same invariant |
| SendQueue.WriteFailedInv | S04_APP_Protocol/server/src/session.cc:88-92 | a failed write keeps the invariant with its node still at the front and no write in flight |
| SendQueue.WireIsPrefix | S04_APP_Protocol/server/src/session.cc:48-92 | the bytes on the wire are a prefix of the accepted frames joined in acceptance order |
| EchoSpec.GotBytesInv | S04_APP_Protocol/server/src/session.cc:95-210 | a read completion keeps: what was offered to the queue is exactly the frames of all messages in all bytes received, and one read is armed exactly while the reader is live |
| EchoSpec.EventIsRecorded | S04_APP_Protocol/server/src/session.cc:74-214 | each completion adds to what was received, completed or failed exactly what it brought |
| EchoSpec.EventsAreRecorded | S04_APP_Protocol/server/src/session.cc:74-214 | over any run the bytes received grow by exactly the chunks read, and the frames completed by the number of writes that completed |
| EchoSpec.FailuresAreRecorded | S04_APP_Protocol/server/src/session.cc:88-92 | a session has seen a read or a write error exactly if the run has one, at most one write fails, and it was cut where that event says |
| EchoSpec.ReceivedIsWhatArrived | S04_APP_Protocol/server/src/session.cc:95-210 | a started session has received exactly the joined chunks of its run |
| EchoSpec.WhatMayHappen | S04_APP_Protocol/server/src/session.cc:40-93 | after any run a read may bring any chunk of 1 to 2048 bytes exactly while the session is neither rejected nor failed, and the front may complete or fail anywhere exactly while something is queued and no write failed |
| EchoSpec.StepInv | S04_APP_Protocol/server/src/session.cc:74-214 | every completion, successful or failed, keeps the session invariant |
| EchoSpec.ReachableInv | S04_APP_Protocol/server/src/session.cc:40-214 | the invariant holds after every run from a started session |
| EchoSpec.StreamIsFramesAndResidue | S04_APP_Protocol/server/src/session.cc:6-14 | encoding the parsed messages gives back the received bytes up to the unfinished frame, so parser and encoder undo each other on streams |
| EchoSpec.EchoIdentity | S04_APP_Protocol/server/src/session.cc:117-197 | over every run without a refused send, and none is within the first 1001 messages, the frames accepted for sending are, byte for byte, the joined chunks that arrived up to the last complete frame, and the wire is a prefix of what arrived |
| EchoSpec.WireConservation | S04_APP_Protocol/server/src/session.cc:48-87 | over every run: the offered frames are those of the messages the whole-stream parser finds in the joined chunks, and the reader stands where it does; the accepted ones are a subsequence; completed then queued are the accepted in order, as many completed as writes did; the write in flight is the front; at most limit + 1 queued |
| EchoSpec.OneOutstandingRead | S04_APP_Protocol/server/src/session.cc:104-208 | over every run at most one read is armed, and one is armed exactly until a rejection or a read error; the session is on the map exactly until a rejection or an error; errors are those of the run |
| EchoSpec.DrainAfterRejection | S04_APP_Protocol/server/src/session.cc:130-134 | after an oversized length nothing is read or accepted; without a write failure the only possible events are write completions, the queued frames leave in order, and the last reference to the session goes after exactly queue-length completions |
| EchoSpec.SilenceAfterWriteError | S04_APP_Protocol/server/src/session.cc:77-92 | in every continuation after a failed write no write is issued again and nothing more reaches the wire |
| EchoSession.MsgNode.FromMessage | S04_APP_Protocol/server/src/session.cc:6-14 | the buffer holds the frame of the message and a terminating zero |
| EchoSession.MsgNode.Empty | S04_APP_Protocol/server/src/session.cc:16-18 | a zeroed buffer of the announced length and one byte more |
| EchoSession.MsgNode.Clear | S04_APP_Protocol/server/src/session.cc:22-25 | every byte but the terminator is zeroed and the count is 0 |
| EchoSession.MsgNode.Append | S04_APP_Protocol/server/src/session.cc:137-139 | the bytes copied are appended to what the node held |
| EchoSession.CServer.StartAccept | S04_APP_Protocol/server/src/server.cc:24-29 | a new session under an unused identifier waits for the next peer, not yet started and not on the map |
| EchoSession.CServer.AcceptCallback | S04_APP_Protocol/server/src/server.cc:12-22 | without an error one read is armed and the session is on the map under its identifier; with one, neither changes; either way a new session waits for the next peer |
| EchoSession.CServer.Admit | S04_APP_Protocol/server/src/server.cc:15-16 | one read is armed, and the map gains exactly this session unless its identifier was there |
| EchoSession.CServer.RemoveSession | S04_APP_Protocol/server/src/server.cc:31 | exactly that identifier leaves the map |
| EchoSession.CSession.constructor | S04_APP_Protocol/server/src/session.cc:27-38 | a new session is the started state before its first read and before it is on the map |
| EchoSession.CSession.Start | S04_APP_Protocol/server/src/session.cc:40-46 | one more read is armed on a zeroed buffer and nothing else in the session changes |
| EchoSession.CSession.Send | S04_APP_Protocol/server/src/session.cc:48-65 | the node queue, the writes in flight and the history change as one send of that message's frame, whose bytes are in the node to be written |
| EchoSession.CSession.PopAndWriteNext | S04_APP_Protocol/server/src/session.cc:77-87 | a successful completion pops exactly the front and puts the new front in flight |
| EchoSession.CSession.EndWrite | S04_APP_Protocol/server/src/session.cc:88-92 | a failed completion leaves the queue as it was and no write in flight |
| EchoSession.CSession.HandleWrite | S04_APP_Protocol/server/src/session.cc:74-93 | the whole session changes as one completed or failed write; the map loses the session exactly on failure |
| EchoSession.CSession.FinishMessage | S04_APP_Protocol/server/src/session.cc:155-163 | a complete body is terminated and sent as one frame, and the reader stands before a fresh header |
| EchoSession.CSession.ReadLength | S04_APP_Protocol/server/src/session.cc:115-126 | the length is decoded from the header's earlier bytes followed by the chunk's |
| EchoSession.CSession.KeepHead | S04_APP_Protocol/server/src/session.cc:102-114 | a chunk that ends inside a header ends the callback with those bytes kept and one read armed |
| EchoSession.CSession.FinishHead | S04_APP_Protocol/server/src/session.cc:115-173 | a completed header either ends the callback in the state its length asks for, or one whole message is echoed and strictly less of the chunk remains |
| EchoSession.CSession.JudgeLength | S04_APP_Protocol/server/src/session.cc:129-173 | by the announced length alone the callback either ends as the rest of the chunk asks for or goes on after one echoed message |
| EchoSession.CSession.Refuse | S04_APP_Protocol/server/src/session.cc:130-134 | an oversized length takes exactly this session off the map and ends reading |
| EchoSession.CSession.FirstBody | S04_APP_Protocol/server/src/session.cc:135-173 | a body begun in the chunk of its header is kept if incomplete; if complete it is echoed and the rest of the chunk is read from a fresh header |
| EchoSession.CSession.KeepBody | S04_APP_Protocol/server/src/session.cc:177-187 | a chunk that ends inside a body begun earlier ends the callback with those bytes appended and one read armed |
| EchoSession.CSession.FinishBody | S04_APP_Protocol/server/src/session.cc:188-209 | a chunk that completes such a body has it echoed, and goes on exactly when bytes are left |
| EchoSession.CSession.NextFrame | S04_APP_Protocol/server/src/session.cc:155-171 | after a message the callback ends with a read armed exactly when the chunk is used up, and otherwise goes on from a fresh header |
| EchoSession.CSession.Turn | S04_APP_Protocol/server/src/session.cc:100-209 | one turn either ends the callback in the state the rest of the chunk asks for, with one read armed unless rejected, or consumes at least one byte and leaves the same goal for what remains |
| EchoSession.CSession.ParseChunk | S04_APP_Protocol/server/src/session.cc:100-209 | the loop ends, stays inside all three buffers, and reaches the state and the sends that the incremental parser gives for the chunk |
| EchoSession.CSession.HandleRead | S04_APP_Protocol/server/src/session.cc:95-214 | the whole session changes as one successful or failed read of those bytes; the map loses the session exactly on an error or a rejection |
| ExactReader.ExactSession.Start | S07_Simple_App_Protocol/server/src/session.cc:45-52 | the header node is zeroed and is what the outstanding read fills |
| ExactReader.ExactSession.ReadHead | S07_Simple_App_Protocol/server/src/session.cc:103-132 | a full header asks for a body of the decoded length even when that length took the session off the map; an error or a short header closes the session |
| ExactReader.ExactSession.Send | S07_Simple_App_Protocol/server/src/session.cc:54-71 | the node queue, the writes in flight and the history change as one send of that message's frame, in the host's byte order |
| ExactReader.ExactSession.WriteCallback | S07_Simple_App_Protocol/server/src/session.cc:80-101 | they change as one completed or failed write; on failure the session is closed and off the map |
| ExactReader.ExactSession.ReadMsg | S07_Simple_App_Protocol/server/src/session.cc:134-150 | exactly the body is delivered and echoed as one send, and the next header is asked for; on an error nothing is delivered or echoed |
| ExactReader.ExactSession.EchoOne | S07_Simple_App_Protocol/server/src/session.cc:137-146 | delivering one more message adds exactly its frame to what was sent |
| ExactReader.ExactSession.Serve | S07_Simple_App_Protocol/server/src/session.cc:103-146 | over a whole byte stream the two callbacks deliver, keep on the map and leave unread exactly what the exact-read machine does, and the send queue is what it was after sending the frames of the messages delivered |
| PartialWrites.WriteInv | S01_ApiStudy/AsyncApi/src/session.cc:89-99 | queueing a message keeps: a write is pending if and only if the queue is non-empty, the buffer outstanding is the unwritten rest of the front, the wire is the finished messages and the written part of the front |
| PartialWrites.CompletedInv | S01_ApiStudy/AsyncApi/src/session.cc:59-88 | whatever count is reported, a completion reaches undefined behaviour if and only if it finishes a message, another is queued and `send_node_` does not stand at 0; otherwise it keeps the invariant; bytes and nodes left always decrease |
| PartialWrites.RunInv | S01_ApiStudy/AsyncApi/src/session.cc:59-99 | the same over every run |
| PartialWrites.EventsAreRecorded | S01_ApiStudy/AsyncApi/src/session.cc:89-99 | what was written is exactly the messages given in the run, in order, and the wire is as long as the counts reported say |
| PartialWrites.WhatMayHappen | S01_ApiStudy/AsyncApi/src/session.cc:68-79 | the socket may report any part of what is left of the front exactly while something is queued and nothing failed |
| PartialWrites.WireIsPrefix | S01_ApiStudy/AsyncApi/src/session.cc:66-80 | the wire is a prefix of all messages joined, and all of them when nothing is outstanding and nothing failed |
| PartialWrites.PartialWritesRefineTheQueue | S01_ApiStudy/AsyncApi/src/session.cc:59-99 | over every run with the offset at 0 nothing breaks down; as long as nothing did, the wire is a prefix of the messages given in the run, as long as the counts reported, and whenever nothing is outstanding and nothing failed it is exactly those messages |
| PartialWrites.CompletionsAreBounded | S01_ApiStudy/AsyncApi/src/session.cc:66-80 | there are at most as many completions as bytes and nodes left |
| PartialWrites.SecondMessageFaults | S01_ApiStudy/AsyncApi/src/session.cc:81-86 | with `send_node_` never set, two messages in a row and the first one's completion are a run that reaches undefined behaviour |
| PartialWrites.MsgNode.constructor | S01_ApiStudy/AsyncApi/src/session.cc:12-18 | the node holds a copy of the message and stands at 0 |
| PartialWrites.Session.WriteToSocket | S01_ApiStudy/AsyncApi/src/session.cc:89-99 | the session changes as one queued message, with a write issued only if none was pending |
| PartialWrites.Session.WriteCallback | S01_ApiStudy/AsyncApi/src/session.cc:59-88 | the session changes as one completion with that count, or one failure, of the value model |
| PartialWrites.Session.PopAndWriteNext | S01_ApiStudy/AsyncApi/src/session.cc:76-87 | the finished front is popped, and the next node is issued whole when `send_node_` stands at 0, with undefined behaviour otherwise |
| PartialWrites.Session.WriteNext | S01_ApiStudy/AsyncApi/src/session.cc:81-86 | with the offset at 0 the buffer issued is a prefix of the new front as long as what its own count leaves |
| LogicQueue.StepInv | S08_MsgID_CS/server/src/logic_sys.cc:47-93 | every step of worker, producer or stop keeps: taken then queued is posted, the mutex has one holder, and a sleeping worker with something queued means a producer about to notify |
| LogicQueue.ConservationAndNoLostWakeup | S08_MsgID_CS/server/src/logic_sys.cc:50-93 | in every reachable state, spurious wakeups allowed and under either rule of notification, the messages taken are the first posted, in order, the rest is queued, and a worker asleep with no producer about to notify means an empty queue |
| LogicQueue.NotifyingTheFirstSuffices | S08_MsgID_CS/server/src/logic_sys.cc:90-92 | in every reachable state notifying for the first message only does what notifying for each would |
| LogicQueue.HandledStep | S12_Corotine_Server/server/src/logic_system.cc:65-75 | a step enters a handler exactly for a message taken, or in S12 about to be, that has a registered id |
| LogicQueue.HandlersAreCalled | S08_MsgID_CS/server/src/logic_sys.cc:75-83 | over every run of either server the messages posted are those producers brought, in the order they got the mutex, and handlers were entered exactly for the messages taken with a registered id, in order, with the one being handled in S12 |
| LogicQueue.ExitDrains | S12_Corotine_Server/server/src/logic_system.cc:47-63 | the S12 worker leaves its loop only when everything posted has been taken; the S08 worker leaves it only with something still queued |
| LogicQueue.StopBranchSkipsTheQueue | S08_MsgID_CS/server/src/logic_sys.cc:58-72 | a concrete run in which an S08 worker exits with a posted message queued and none taken |
| LogicQueue.NoExitWhileEmpty | S08_MsgID_CS/server/src/logic_sys.cc:53-56 | stopped or not, an S08 worker with nothing queued and nothing more posted never leaves its loop |
| LogicQueue.NeverSleepsAgain | S12_Corotine_Server/server/src/logic_system.cc:44-47 | once the stop is announced to a worker that is not about to sleep, it never sleeps in any continuation |
| LogicQueue.WorkDecreases | S12_Corotine_Server/server/src/logic_system.cc:42-77 | every step of the S12 worker itself lessens a bound of four steps per queued message and four more |
| LogicQueue.StopBoundsTheWorker | S12_Corotine_Server/server/src/logic_system.cc:44-63 | with the stop seen in time and nothing more posted, the worker takes a bounded number of steps, has no next step exactly when it has exited, and exits with everything posted taken |
| LogicQueue.StopLeadsToExit | S12_Corotine_Server/server/src/logic_system.cc:44-63 | there are such steps, and they end at the exit |
| LogicQueue.StopAnnouncement | S12_Corotine_Server/server/src/logic_system.cc:21-25 | the announcement is lost exactly when it comes between the worker's finding its condition false and its going to sleep |
| LogicQueue.StopCanBeLost | S12_Corotine_Server/server/src/logic_system.cc:21-25 | a concrete run from the start after which the worker sleeps with the stop set and already announced |
| LogicQueue.PosterRun | S12_Corotine_Server/server/src/logic_system.cc:28-34 | a producer's four steps append one message at the back and wake a sleeping worker, whatever the size was |
| LogicQueue.LogicSystem.constructor | S12_Corotine_Server/server/src/logic_system.cc:16-19 | a new logic system is the initial state of the machine |
| LogicQueue.LogicSystem.PostMsg | S12_Corotine_Server/server/src/logic_system.cc:28-34 | the object changes as that run of the machine |
| LogicQueue.LogicSystem.PopFront | S12_Corotine_Server/server/src/logic_system.cc:65-75 | exactly the front leaves the queue, and handler calls remain those of the messages taken with a registered id |
| LogicQueue.LogicSystem.DealMsg | S12_Corotine_Server/server/src/logic_system.cc:47-76 | one turn is a run of the machine: it takes exactly the front, or when stopping everything queued, and the handler is called exactly for the messages taken with a registered id, in order |
| WriteToken.StepInv | S12_Corotine_Server/server/src/session.cc:40-58 | every step of every thread keeps mutual exclusion, the single right to write and the history of the wire |
| WriteToken.LeavePopInv | S12_Corotine_Server/server/src/session.cc:138-151 | the pop in a write completion finds a non-empty queue and keeps all three |
| WriteToken.RunInv | S12_Corotine_Server/server/src/session.cc:40-158 | the three invariants hold after any interleaving |
| WriteToken.FirstOffersAreAccepted | S12_Corotine_Server/server/src/session.cc:42-48 | in every run nothing is refused of the first 1001 frames offered |
| WriteToken.AcceptedWhileShort | S12_Corotine_Server/server/src/session.cc:42-48 | between two states of a run with at most 1000 queued throughout, exactly what was offered was accepted, in that order |
| WriteToken.QueueFills | S12_Corotine_Server/server/src/session.cc:42-52 | without completions the queue grows with every send up to exactly 1001 entries |
| WriteToken.EventsAreRecorded | S12_Corotine_Server/server/src/session.cc:40-58 | the frames offered are those of the calls of `send` that got through the mutex, in that order, told from the steps alone, and the wire is as long as the socket reported |
| WriteToken.TokenCount | S12_Corotine_Server/server/src/session.cc:40-158 | threads between unlock and `async_write`, completions about to pop, and writes in flight are one in all while the queue is non-empty and no write has failed, and none otherwise |
| WriteToken.SingleWriter | S12_Corotine_Server/server/src/session.cc:40-151 | the same in every reachable state for any number of threads, and the node held across the unlocked gap or in flight is still the front; at most limit + 1 entries |
| WriteToken.MutualExclusion | S12_Corotine_Server/server/src/session.cc:41-54 | two threads inside the session's mutex are the same thread |
| WriteToken.WireIsPrefix | S12_Corotine_Server/server/src/session.cc:53-57 | the wire is a prefix of the accepted frames joined in order, and all of them when the queue is empty |
| WriteToken.FailedStep | S12_Corotine_Server/server/src/session.cc:40-58 | after a failed write no step pops anything or puts a byte on the wire |
| WriteToken.SilenceAfterWriteError | S12_Corotine_Server/server/src/session.cc:141-158 | after a failed write no thread ever holds the right to write again and nothing more reaches the wire, under any interleaving |
| CoroutineFrames.ParseEncoded | S12_Corotine_Server/common/msg_node.cc:20-28 | an encoded message at the front of a stream is read back whole if it is within the reader's limits, and ends the session otherwise |
| CoroutineFrames.NetworkMessage | S12_Corotine_Server/server/src/session.cc:83-114 | by its bytes: an id of at most 2048, negative ones included, and a length of 1 to 2048, each with its first byte counting 256 times, are read with exactly that body; anything else ends the session |
| CoroutineFrames.EncodeBytes | S12_Corotine_Server/common/msg_node.cc:20-28 | the bytes written for a message: id, length, body |
| CoroutineFrames.RoundTrip | S12_Corotine_Server/server/src/session.cc:70-123 | reading the joined frames of a list of messages posts exactly that list, with nothing left over, if and only if, among messages that a node can carry, every id is at most 2048 (negative ones included) and every body has 1 to 2048 bytes |
| CoroutineFrames.ParseSnoc | S12_Corotine_Server/server/src/session.cc:70-123 | reading on when more bytes arrive is the same as reading the longer stream |
| CoroutineFrames.ParsePrefix | S12_Corotine_Server/server/src/session.cc:70-123 | what is read of the first bytes of a stream comes first in what is read of the whole |
| CoroutineFrames.ReadsTheFirst | S12_Corotine_Server/server/src/session.cc:70-123 | whatever messages are sent, what is read back comes first in them |
| CoroutineSession.SendNode.constructor | S12_Corotine_Server/common/msg_node.cc:20-28 | the buffer holds the encoding of the id, the length and the body, and a terminating zero |
| CoroutineSession.Session.SendLocked | S12_Corotine_Server/server/src/session.cc:40-54 | the queue changes as the critical section of the protocol model, and the caller holds a node to write if and only if the model's thread does, that node being the front |
| CoroutineSession.Session.PopLocked | S12_Corotine_Server/server/src/session.cc:142-146 | the same for the completion's critical section |
| CoroutineSession.ReadHeader | S12_Corotine_Server/server/src/session.cc:83-114 | the checks on id and length end the session exactly when the whole-stream meaning does |
| CoroutineSession.ReadLoop | S12_Corotine_Server/server/src/session.cc:64-131 | the coroutine posts the messages of the whole-stream meaning up to the first test that finds `b_close_` set; if none does, all of them, and it waits for the same thing; it closes the session itself exactly when the meaning says so or the connection breaks |
| CoroutineServer.TakenSnoc | S12_Corotine_Server/server/src/logic_system.cc:65-75 | one more request handled adds one answer in its own session if its id is registered, and nothing in any other |
| CoroutineServer.OnlyOne | S12_Corotine_Server/server/src/logic_system.cc:65-75 | a step that concerns one session leaves the invariant of every other session |
| CoroutineServer.StepInv | S12_Corotine_Server/server/src/session.cc:40-165 | every action of every thread keeps the invariants of the logic thread and of every session together |
| CoroutineServer.RunInv | S12_Corotine_Server/server/src/session.cc:40-165 | they hold after every run, with sessions accepted at any time |
| CoroutineReplies.AnswersEncodeReplies | S12_Corotine_Server/server/src/logic_system.cc:84-95 | the frames sent for a list of requests are the encodings of what the handlers answer to those with a registered id, under the handlers' own ids |
| CoroutineReplies.ReadsChosenReplies | S12_Corotine_Server/server/src/session.cc:40-58 | a client that reads a prefix of any replies chosen in order gets replies chosen in order |
| CoroutineReplies.ReceivedIsWhatArrived | S12_Corotine_Server/server/src/session.cc:70-112 | a session has received exactly the bytes its completed reads brought |
| CoroutineReplies.EndToEnd | S12_Corotine_Server/server/src/logic_system.cc:28-77 | for any number of sessions and any interleaving, told from the bytes that arrived and the handlers' answers: what a session accepted is a subsequence of the encoded replies to its own requests, in its own order, one per registered id; the wire is a prefix of it; a client reading the wire gets only such replies, in order; nothing is refused of the first 1001, and with no refusal it gets the first replies without a gap |
| CoroutineServer.WireFollows | S12_Corotine_Server/server/src/session.cc:40-58 | a session that was offered the first of some frames has accepted a subsequence of them and written a prefix of what it accepted |
| CoroutineReplies.Quiescence | S12_Corotine_Server/server/src/session.cc:40-131 | with both queues empty and no message in hand, a session with no refusal, as with at most 1001 replies, has on the wire exactly the encoded replies to all that arrived, and a client reads exactly those if and only if each is within its limits |
| CoroutineServer.SingleWriterPerSession | S12_Corotine_Server/server/src/session.cc:40-58 | in every session of every run of the whole server the right to write is held exactly as the sending protocol says |
| CoroutineServer.ExitAnswersEverything | S12_Corotine_Server/server/src/logic_system.cc:47-63 | when the logic thread leaves its loop, every request posted so far has been handled and every answer offered to its session |
| CoroutineServer.MutexRunInv | S12_Corotine_Server/server/src/server.cc:42-45 | in every run a thread at the server's own mutex holds no other lock and is waiting for none |
| CoroutineServer.LogicLockStep | S12_Corotine_Server/server/src/logic_system.cc:29-45 | the logic thread and the posting coroutines can lock the logic mutex exactly when no thread holds it |
| CoroutineServer.SessionLockStep | S12_Corotine_Server/server/src/session.cc:41-54 | a thread in `send` or `write_callback_` that waits for a session's mutex can lock it exactly when no thread holds it |
| CoroutineServer.MapLockStep | S12_Corotine_Server/server/src/server.cc:24-44 | a thread that waits for the server's mutex can lock it exactly when no thread holds it |
| CoroutineServer.HoldAndWait | S12_Corotine_Server/server/src/logic_system.cc:44-75 | the only thread that ever waits for a lock while holding one is the logic thread, which holds its own and waits for a session's |
| CoroutineServer.DeadlockFreedom | S12_Corotine_Server/server/src/logic_system.cc:44-75 | no reachable state has a cycle of threads each waiting for a lock held by the next, for any number of sessions |
| CoroutineServer.SessionLockMoves | S12_Corotine_Server/server/src/session.cc:41-54 | whoever is inside a session's mutex can leave it |
| CoroutineServer.LogicLockMoves | S12_Corotine_Server/server/src/logic_system.cc:42-76 | the logic thread inside its mutex can take its own next step, or waits for a session's mutex whose holder can move |
| CoroutineClosing.ClosedExactlyWhen | S12_Corotine_Server/server/src/session.cc:76-136 | over every run a session is closed exactly when one of its writes failed, one of its reads failed, or the bytes that arrived announce an id or length out of bounds; otherwise its coroutine is in its loop, where the bytes say |
| CoroutineClosing.ClosedSessionStops | S12_Corotine_Server/server/src/session.cc:70-123 | in every continuation a closed session stays closed, reads nothing after its next look at `b_close_`, and posts at most one more message |
| CoroutineClosing.WriteFailureStopsReading | S12_Corotine_Server/server/src/session.cc:152-158 | so does a session one of whose writes fails |
| CoroutineClosing.EveryoneGetsToTheMap | S12_Corotine_Server/server/src/server.cc:20-45 | over every run a thread waits for the server's mutex or has got it exactly if it is the acceptor of a session, the coroutine of one that ended, or the completion of a write that failed |
| CoroutineClosing.OnMapExactlyWhen | S12_Corotine_Server/server/src/server.cc:20-45 | over every run a session is on the map exactly when the last to get through the mutex on its account was its acceptor |
| CoroutineClosing.RemovalCanBeLost | S12_Corotine_Server/server/src/server.cc:23-25 | a concrete run in which a session ends and removes itself before it is inserted, and stays on the map |
| CoroutineProgress.WriteLessens | S12_Corotine_Server/server/src/session.cc:40-58 | every step of a session's sending side other than a new send or a failure lessens a bound on the bytes and hand-overs left |
| CoroutineProgress.StepLessens | S12_Corotine_Server/server/src/logic_system.cc:28-77 | every step of the whole server other than new input, failures, the stop and spurious wakeups lessens one bound on all the work left |
| CoroutineProgress.WriterMoves | S12_Corotine_Server/server/src/session.cc:138-151 | while a session has something queued and no write failed, some step of its sending side can be taken |
| CoroutineProgress.LogicMoves | S12_Corotine_Server/server/src/logic_system.cc:28-77 | while a message is being posted or the logic thread is neither asleep nor gone, some step can be taken |
| CoroutineProgress.RestsWhenQuiet | S12_Corotine_Server/server/src/logic_system.cc:42-77 | the server has no step to take by itself if and only if the logic thread sleeps on an empty queue or is gone, nothing is being posted, no lock is wanted, and every session has sent all it queued or lost its connection |
| CoroutineProgress.InternalRunsAreBounded | S12_Corotine_Server/server/src/session.cc:40-165 | left alone, the server takes a bounded number of steps and neither receives bytes nor loses a connection by them |
| CoroutineProgress.ComesToRest | S12_Corotine_Server/server/src/session.cc:40-165 | from every reachable state there are such steps that end at rest |
| CoroutineProgress.ListensAtRest | S12_Corotine_Server/server/src/session.cc:70-112 | at rest every session that is not closed takes the next header or body of its stream, whatever its bytes, and the server takes new connections |
| CoroutineProgress.WritesMayFail | S12_Corotine_Server/server/src/session.cc:152-158 | a write in flight may fail in every state |
| CoroutineProgress.EverythingIsAnswered | S12_Corotine_Server/server/src/session.cc:40-131 | after any run, however the server is then left alone until it has no step, a session without a failed write and with no refusal, as with at most 1001 replies, has on the wire exactly the encoded replies to all that arrived, and a client reads exactly those if and only if each is within its limits, unless requests came after the logic thread's exit |
| IoContextPool.IOContextPool.GetIoContext | S12_Corotine_Server/server/src/io_context_pool.cc:27-33 | call number k returns context k mod size, always in range |
| IoContextPool.WindowCount | S12_Corotine_Server/server/src/io_context_pool.cc:27-33 | how often one context is handed out in a window of consecutive calls, in closed form |
| IoContextPool.Balanced | S12_Corotine_Server/server/src/io_context_pool.cc:27-33 | in any window of consecutive calls two contexts are handed out equally often, give or take one |
| IoContextPool.PoolIsBalanced | S12_Corotine_Server/server/src/io_context_pool.cc:6-9 | the same for every window of what a pool really handed out |

## Left out

- Negative lengths: in S04 and S07 a negative length makes an allocation of a wrapped size and no behaviour is defined from there on; the reader models stop in a state of their own (`Faulted`, `Broken`) and no event is enabled after it. In S12 every negative length ends the session, as the failed allocation does; for -1 alone the original writes before its buffer, which is not modelled.
- Byte order of the host: the header written by `S04_APP_Protocol/server/src/session.cc:10-11` is copied from an `int`, which gives the network-order length on little-endian hosts only. The model takes that host.
- S04 `HandleRead`: its one long loop body is cut into methods (`KeepHead`, `FinishHead`, `JudgeLength`, `FirstBody`, `KeepBody`, `FinishBody`, `NextFrame`), one per branch, and its console output is dropped.
- S04 and S07 `send_lock_`: both servers run all handlers on one thread, so the lock never has to wait and is dropped.
- S07 bodies over 32765 bytes: the length of their echo's node no longer fits its `short`. The machine stops there as after a negative length (`Broken`), also in the case of a full send queue, where the original refuses the echo and reads on.
- S01's `write_to_socket` hands the caller's own string to the socket; that the caller keeps it alive is taken for granted. `write_to_socket_err`, which shares `send_node_`, appears only as the value that `send_node_` has; it is assumed not to run in between. The `write_all` and read functions are not modelled.
- LogicQueue.StopAnnouncement: does not claim that the S12 destructor returns, because the announcement can be lost.
- S08 beyond its logic thread: the session and the header format are those of S12 without coroutines. The S08 loop is modelled as a state machine only, not as a class.
- The handlers: message parsing and the reply text come from a JSON library. They are one function from id and body to a reply, whose length must fit the 16-bit node size (at most 32763 bytes).
- S12 writes: each completion is given a thread of its own choosing and may overlap with everything else, which allows more interleavings than one context per session does.
- S12 `b_close_` and `b_stop_` are plain variables read and written by several threads; their accesses are taken to be atomic and in program order. Closing the socket while a handler uses it is not modelled.
- CoroutineProgress.ComesToRest: takes for granted that a write in flight goes on, that is that peers keep reading; which thread runs next is left open.
- S12 reads: bytes of an exact read that never completes are not counted as received.
- CoroutineSession.ReadLoop: what it finds `b_close_` to be and whether the connection breaks are parameters; `CoroutineServer` has the threads that decide them.
- IoContextPool: the contexts, their work guards and threads are not modelled, only which one is handed out. A pool of size 0 has no context to hand out and is excluded.
- Sockets, acceptors, resolvers, signals, console output, starting and joining threads.
- The other servers (S05, S06, S09, S10, S13), the echo loops (S02, S03, S11), all clients, S14 and S15: variations of the above or thin wrappers over libraries.
