# GameNetworkFramework: verified model

A Dafny model of the path a message takes through the framework, from the encoder to the inputs a client's
game consumes, and of two scatter/gather algorithms of the bundled asio.

- **Bytes to messages.** `Buffer` is a byte deque over one array with eight bytes of headroom; a message is a
  length, a 17-byte header and a body, and `WireFormat` writes out every offset, number and tag of it; a connection
  reads into a fixed array of 4096 + 8 bytes and cuts frames off it. `ReadTurns` proves that the sizes of the reads
  cannot be seen in an accepted stream, and exactly which streams the fixed array can carry; `RejectedStreams` and
  `ReadSizes` prove exactly when the sizes cannot be seen in any stream.
- **Messages to handlers.** A dispatcher shards messages by role over threads with one queue each, and matches
  synchronous replies to futures. `DispatchSteps` and `SyncReplies` prove what every interleaving keeps, `Progress` that
  everything accepted can always still be dispatched, and `EndToEnd` joins the dispatcher with the read turns.
- **Frames.** The example server batches control messages per frame, records, stamps and broadcasts them and
  replays the record to a late joiner; a client releases them by frame. `FrameSync` and `Lockstep` prove which joiners
  miss nothing and when the record is in the order clients need; `RoomView` gives every packet that is queued to a
  player, and `RoomReplies` the reply a client waits for. `SharedGame` follows an input from the record over the
  send dispatcher, the bytes on the wire and the client's dispatcher to its release: players who joined as role 3, or
  before anything was recorded, release the same inputs in every frame, as long as the frame numbers of the record
  never fall and the client is told at most once that the game starts. `GameClients` has the callbacks of the client,
  and `Delivery` shows that everything can arrive.
- **Connections.** `ConnectionMaps` proves exactly when the maps of the server are coherent, and when they list exactly
  the live connections; `ConnectionLife` follows the results of all reads to these maps.
- **asio.** `BuffersIterator` and `BufferCopy` refine an index into, and a copy of, the flattened bytes.

Code that updates objects is modelled by classes and loops (`Buffer.dfy`, `Messages.dfy`, `Reception.dfy`,
`Connection.dfy`, `GameRoom.dfy`, `Dispatcher.dfy`, `ServerMaps.dfy`, `Lockstep.dfy`, `BuffersIterator.dfy`,
`BufferCopy.dfy`). Each method is proved equal to a step of a state machine on values, and the laws over all runs
are lemmas about those machines. A failed `assert` and the use of a null message are outcomes of the model
(`Aborted`, `Stuck`, `Crashed`, `failed`), not preconditions, wherever bytes from the network can cause them.

## Findings

- The header decoder accepts announced lengths up to 4096, but with the 4-byte length in front only 4092 fit the
  connection's array: a longer frame wedges the connection for good (`ReadTurns.OversizeWedges`,
  `ReadTurns.DeliverableIff`).
- The type tag is read as four bytes and cut to one, so its three high bytes are ignored
  (`Codec.DecodeOfRawFrame`). The default tag is accepted by the header decoder but yields a null message
  (`Codec.TransmitSucceedsIff`), which `GameServer/MKServer.cpp:23-24` uses.
- Encoding puts the length in front of everything readable, so only an empty buffer gives a frame
  (`Messages.EncodedIntoEmpty`).
- After a rejected header, what is delivered can depend on how the bytes were split into reads
  (`ReadTurns.ChunkingShowsAfterRejection`): exactly if the rejected frame is too short for its own header, or a further
  pass finds something to take behind it and there is one, because more bytes follow or the array can be left full
  (`ReadSizes.ChunkingIsInvisibleIff`).
- A client does not survive a second GAME_START, whose callback sets the same promise again
  (`GameClients.HandledAll`). Role 3 is sent one at its own entry, so waiting in the room until role 2 starts the game
  terminates its client (`SharedGame.WaitingReplayerTerminates`); every listed player's client is terminated when role 2
  enters twice (`SharedGame.JoinerSurvivesIff`).
- A read error other than end of file and reset stops the reads without a close callback: the connection stays listed
  for ever (`ConnectionLife.OtherErrorLeavesMaps`, `ConnectionLife.StoppedStaysLive`).
- `Push` tests the flag and enqueues later, so a push in flight when `Stop` clears the flag is still accepted
  (`DispatchSteps.StopOvertakesPush`).
- Promises are keyed by message id only, and every role counts from 1, so requests of two roles collide if they have the
  same number and overlap (`SyncReplies.RolesCollideIff`, `SyncReplies.RequestsFailIff`), as the first ones do
  (`SyncReplies.FirstRequestsCollide`).
- A close erases the role entry even if it belongs to another connection, and leaves the name listed if there is
  none (`ConnectionMaps.CloseRemovesIff`, `ConnectionMaps.SharedRoleLosesConnection`). The next connection of that name
  is then not listed at all (`ConnectionMaps.SilentCloseShutsOutName`). Role id 0 on the wire breaks the role map
  (`ConnectionMaps.ZeroRoleBreaksCoherence`) exactly when the connection registered under it sends another role id
  (`ConnectionMaps.StepCoherentIff`).
- The entry of role 2, which starts the game, resets the frame counter at any time (`FrameSync.StartResetsFrames`). If
  messages of higher frames are in the record, clients hold back inputs that are due (`FrameSync.RestartKeepsOrderIff`,
  `SharedGame.RestartHoldsInputsBack`). Only role 3 is replayed the record (`FrameSync.JoinerMissesNothingIff`).
- `PopInput` compares a signed frame with an unsigned one, so a negative frame releases inputs ahead of time
  (`Lockstep.NeverAheadIff`).

## Model

| member | source | states |
|---|---|---|
| ByteOrder.SwapEndian | Buffer/ByteOrder.h:16-32 | the swap loop, run on the object bytes of either host, gives the value whose big-endian bytes are those of the argument reversed |
| ByteOrder.SwapIsInvolution | Buffer/ByteOrder.h:16-32 | for every width, swapping twice is the identity |
| ByteOrder.ProbeIsExact | Buffer/ByteOrder.h:5-14 | the first byte of 0x12345678 tells the byte order of the host, both ways |
| ByteOrder.NtohOfHton | Buffer/ByteOrder.h:34-46 | ntoh(hton(x)) = x for every width and either host |
| ByteOrder.HtonWritesNetworkOrder | Buffer/ByteOrder.h:41-46 | on either host the object bytes after hton are in big-endian order (Appendix B of RFC 791) |
| ByteOrder.NtohReadsNetworkOrder | Buffer/ByteOrder.h:34-39 | on either host ntoh of copied bytes is their big-endian value |
| BufferDeque.Buffer.constructor | Buffer/Buffer.cpp:5-10 | an empty buffer with 8 bytes of headroom and the asked-for room behind it |
| BufferDeque.Buffer.AdjustBuffer | Buffer/Buffer.cpp:64-72 | the overlapping forward copy moves the readable bytes to index 8 without changing them |
| BufferDeque.Buffer.AddReadIndex | Buffer/Buffer.cpp:39-50 | drops at most what is readable, whatever count is asked for |
| BufferDeque.Buffer.WriteAndAddIndex | Buffer/Buffer.cpp:34-37 | bytes written at WriteBegin followed by AddWriteIndex appear behind the readable ones |
| BufferDeque.Buffer.ReSize | Buffer/Buffer.cpp:87-90 | the contents that fit are kept, new room is zero, the indices stay; the buffer is still valid if and only if the write index fits, and then holds the same bytes |
| BufferDeque.Buffer.AppendData | Buffer/Buffer.cpp:116-127 | appends any number of bytes, growing when needed; the whole new state including the capacity |
| BufferDeque.Buffer.PreAppendData | Buffer/Buffer.h:59-65 | puts bytes in front within the headroom, leaving the others in place |
| BufferDeque.Buffer.AppendNumber | Buffer/Buffer.h:45-50 | appends the big-endian bytes of a number on either host |
| BufferDeque.Buffer.PreAppendNumber | Buffer/Buffer.h:52-57 | puts the big-endian bytes of a number in front on either host |
| BufferDeque.Buffer.PeekNumber | Buffer/Buffer.h:75-82 | reads the number that the first readable bytes stand for and changes nothing |
| BufferDeque.Buffer.ReadNumber | Buffer/Buffer.h:67-73 | reads that number and drops exactly its bytes |
| BufferDeque.QueueConserves | Buffer/Buffer.cpp:34-127 | over every sequence of appends, external writes, clamped drops and compactions: what left, followed by what is readable, is what entered, in order |
| BufferDeque.LayoutIsInvisible | Buffer/Buffer.cpp:34-127 | over every sequence of operations, front insertions included, position, headroom and capacity never influence the bytes; with Perform, of any two buffer objects |
| BufferDeque.Perform | Buffer/Buffer.cpp:34-127 | on the array and its two indices, any sequence of operations leaves exactly the bytes, position and capacity of the abstract deque |
| BufferDeque.AppendThenFrameThenDrop | Buffer/Buffer.h:59-65 | after an append the headroom always suffices for a prefix of up to 8 bytes, and dropping the prefix undoes its insertion |
| BufferDeque.GrowthLeavesEight | Buffer/Buffer.cpp:116-127 | an append grows the array exactly if headroom, readable and new bytes exceed it, to eight bytes more than they need |
| Messages.BaseMessage.EncodeMessage | Message/BaseMessage.cpp:23-37 | the bytes after encoding into any buffer, old contents and a changed magic number included: length, old bytes, header, body |
| Messages.EncodedIntoEmpty | Message/BaseMessage.cpp:23-37 | the announced length covers what follows it if and only if the buffer was empty; then the result is the frame of the message |
| Messages.OnlyMagicIsAccepted | Message/BaseMessage.cpp:62-67 | an encoded message is rejected for its magic number if and only if that was changed |
| Messages.BaseMessage.EncodeData | Message/ControlMessage.h:56-60 | each class appends its fields in order, enums widened to four bytes |
| Messages.BaseMessage.DecodeMessageHeader | Message/BaseMessage.cpp:39-86 | for arbitrary bytes: the returned pair, the body size, the assigned fields and the bytes taken off are those of the pure decoder, failed assertions included |
| Messages.AnswerOf | Message/BaseMessage.cpp:39-86 | the returned pair in numbers: true and 0 to wait, false and 0 to reject, true and 21 for a header |
| Messages.BaseMessage.DecodeMessageBody | Message/ControlMessage.h:49-53 | reads the fields of the class the tag stands for and drops eight bytes, or fails its assertion exactly when the body is shorter |
| Messages.TransmitMessage | Message/Messages.cpp:10-24 | a new object with the decoded header and typed body; null exactly for a tag without class, assertion failure exactly for a short body |
| Codec.DecodeOfRawFrame | Message/BaseMessage.cpp:39-86 | a frame followed by anything is accepted with its own header and body if and only if its tag, cut to one byte, is between the bounds |
| Codec.AcceptedIsRawFrame | Message/BaseMessage.cpp:58-86 | conversely, accepted bytes with a complete body are such a frame, up to the three bytes of the tag the decoder drops |
| Codec.DecisionIsPrefixStable | Message/BaseMessage.cpp:39-86 | with announced length at least 17 a decision that is not to wait is repeated on any longer input; accept plus body takes the announced length plus 4; the body is complete if and only if the length is at least 17 |
| Codec.BodyRoundTrip | Message/EnterRoomMessage.h:26-37 | decoding the bytes of a body, with anything behind them, gives every field back, for all field values of the four classes |
| Codec.CodecRoundTrip | Message/BaseMessage.cpp:23-86 | encode, decode, cut out the body and transmit give the message back, with the bytes behind the frame untouched |
| Codec.TransmitSucceedsIff | Message/Messages.cpp:10-24 | which accepted frames become messages: registered tag and a body of at least eight bytes, surplus ignored; the default tag is accepted by the header decoder but has no class |
| WireFormat.EncodedBytes | Message/BaseMessage.cpp:23-37 | the 29 bytes of every message of the four classes by offset, in numbers: length 25, 0x11000011, id, signed role id, version, tag 2, 3, 4 or 5, and the fields of the body |
| WireFormat.DecodedHeader | Message/BaseMessage.cpp:39-86 | every decision of the decoder on arbitrary bytes, by offset, in numbers |
| WireFormat.TypedBody | Message/Messages.cpp:10-24 | for every tag and body, which class results and its fields by offset |
| WireFormat.ReceivedBytes | Message/BaseMessage.h:10-19 | from the bytes of a complete frame with tag 2, 3, 4 or 5 to the message of the control, ping, enter-room or game-start class |
| Reception.ReadMessage | Network/GameConnection.cpp:60-90 | one pass of the parse loop on arbitrary bytes: answer, message, body copy and what stays in the buffer |
| Reception.RoundTrip | Message/BaseMessage.cpp:23-86 | on objects and across byte orders: encoding, decoding and transmitting gives a new message equal in every field, and both buffers end empty |
| FrameSplitter.SplitAppend | Network/GameConnection.cpp:54-98 | splitting what is left together with later bytes continues the split of the whole, for all byte strings that were not rejected |
| FrameSplitter.FailureIsPermanent | Network/GameConnection.cpp:65-75 | a stream that was rejected or failed an assertion is not accepted again by appending bytes |
| FrameSplitter.SplitOfStreamPrefix | Network/GameConnection.cpp:54-98 | any prefix of a stream of frames splits into exactly the frames complete within it, and the rest is a proper prefix of the next one |
| FrameSplitter.SplitOfStream | Network/GameConnection.cpp:54-98 | the whole stream splits into all its frames with nothing left |
| ReadTurns.ChunkingIsInvisible | Network/TcpConnection.cpp:10-40 | for every split of the bytes into reads: messages delivered, role ids registered, role of the connection and bytes left are functions of the bytes alone |
| ReadTurns.DeliversCompleteFrames | Network/GameConnection.cpp:54-98 | after any reads of a stream of frames exactly the complete frames were delivered, in order, and a proper prefix of the next one is readable |
| ReadTurns.RegistersOnce | Network/GameConnection.cpp:77-84 | with a nonzero first role id a connection registers exactly once, under it |
| ReadTurns.NeverWedges | Network/TcpConnection.cpp:26-38 | with announced lengths at most 4092, at any point of any run, a read posted without room is followed by one with room |
| ReadTurns.FullBufferRecoversIff | Network/TcpConnection.cpp:28-32 | a full buffer gets room from the zero-sized read if and only if less than a whole buffer is waiting; a whole buffer announces more than 4092 |
| ReadTurns.OversizeWedges | Message/BaseMessage.cpp:49-57 | a frame announced longer than 4092, although up to 4096 is accepted, stops all delivery for good |
| ReadTurns.DeliveredFramesFit | Network/TcpConnection.cpp:12-38 | on arbitrary bytes no run delivers a frame announced longer than 4092 |
| ReadTurns.DeliverableIff | Network/TcpConnection.cpp:10-40 | some sequence of reads carries a stream of frames through the connection if and only if all announced lengths are at most 4092 |
| ReadTurns.ChunkingShowsAfterRejection | Network/GameConnection.cpp:65-75 | for a whole family of streams with a rejected tag, two chunkings of the same bytes deliver different messages |
| ReadSizes.ChunkingIsInvisibleIff | Network/TcpConnection.cpp:10-40 | from any state with nothing left to do, for arbitrary bytes: every way to receive them ends as one pass over all of them, registrations included, if and only if the pass does not stop at a bad frame that is shorter than its rejection takes off, or behind which a further pass takes something, unless that frame ends the stream and no reads leave the array full; a read brings nothing only if the array is full |
| ReadSizes.EndRunsAgree | Network/TcpConnection.cpp:26-38 | a stream that ends with its first bad frame is received alike by all reads that do not leave the array full |
| ReadSizes.FillTakesWholeArray | Network/TcpConnection.cpp:28-32 | the array is left full only if at least as many bytes are pending as it holds |
| RejectedStreams.SafeContinues | Network/GameConnection.cpp:54-98 | on such streams a pass interrupted anywhere and continued equals one pass, rejections and failed assertions included |
| ReadSizes.UnsafeShows | Network/GameConnection.cpp:65-75 | for every other stream that some reads can bring, reads a socket can complete that end differently: cut inside a short frame, before the last byte, or followed by the read of a full array |
| RejectedStreams.DecisionGrows | Message/BaseMessage.cpp:39-86 | what more bytes make of each decision of the decoder: only a failed assertion on a frame announced shorter than 17 can change |
| RejectedStreams.HaltGrows | Network/GameConnection.cpp:58-75 | a pass over more bytes stops at the same frame with the same decision, what was left growing by them; a failed assertion stays one unless the frame was too short for its header |
| Connection.GameConnection.constructor | Network/GameConnection.cpp:4-24 | a new connection waits for bytes, has no role and has delivered nothing |
| Connection.GameConnection.OnReadComplete | Network/TcpConnection.cpp:10-40 | the completion handler on the array buffer does what the state machine does, for data, end of file, reset and other errors; ConnectionLife proves what that means for the server |
| Connection.GameConnection.OnNewData | Network/GameConnection.cpp:54-98 | the parse loop delivers, registers and leaves exactly what the reference split says, for arbitrary bytes |
| FrameSync.RecordConserves | GameServer/GameServerExample.cpp:113-129 | in every run the flattened record followed by what is pending is what was accepted, in order; nothing is being sent between updates |
| FrameSync.RecordedTicks | GameServer/GameServerExample.cpp:118-128 | in every run on new messages each recorded message holds the number of its frame from then on, although it is stamped after being recorded |
| FrameSync.RecordedTicksStay | GameServer/GameServerExample.cpp:120-126 | once recorded, a message keeps its tick in every later run |
| FrameSync.QueuedWhileStaying | GameServer/GameServerExample.cpp:122-127 | while a role stays, every newly recorded control message is queued to it as often as it is listed |
| FrameSync.JoinerIsQueued | GameServer/GameServerExample.cpp:21-51 | what a role is queued that joins in any state and stays: role 3 the whole record, any other role what is recorded after it entered |
| FrameSync.JoinerMissesNothingIff | GameServer/GameServerExample.cpp:41-48 | a joiner is queued the whole record if and only if it is role 3 or nothing had been recorded when it entered |
| FrameSync.LateJoinerEqualsEarlyPlayer | GameServer/GameServerExample.cpp:131-140 | role 3 joining at any time and a player there before the first recorded message are queued the same control messages in the same order |
| FrameSync.StartsCounted | GameServer/GameServerExample.cpp:32-48 | over all runs, the entries and disconnects alone say how many GAME_START messages a role is queued |
| FrameSync.JoinerStarts | GameServer/GameServerExample.cpp:32-48 | a role that enters and stays is queued one at its own entry if it is role 2 or 3, and one at each later entry of role 2 |
| FrameSync.StartedOnceIff | GameServer/GameServerExample.cpp:32-48 | so at most one if and only if role 2 enters at most once after it, and never after role 3 |
| RoomView.RunSends | GameServer/GameServerExample.cpp:7-51 | over all runs, everything queued to a role, packet by packet, from its own listing and what was pending or recorded: starts with their times, control messages, the replay, replies and pongs |
| RoomView.EveryRequestIsAnswered | GameServer/GameServerExample.cpp:50 | over all runs, the replies and pongs queued to a role are exactly the messages of its own entries and pings, in order; none goes to another role |
| RoomView.EntryIsAnsweredLast | GameServer/GameServerExample.cpp:32-50 | from any state, an entry is answered behind its game start and replay |
| RoomView.DisconnectSilences | GameServer/GameServerExample.cpp:53-69 | a player that disconnected is queued nothing more |
| RoomView.ListedInOrderOfEntry | GameServer/GameServerExample.cpp:26-29 | roles are listed in the order of entry |
| RoomView.BroadcastAt | Network/MsgDispatcher.cpp:41-48 | a broadcast queues one packet per listed role, in the order of the list |
| RoomReplies.OnlyOwnReplyArrives | GameClient/GameClient.cpp:156-170 | on every way of delivery, the future of an entry holds nothing or the reply with its own header and room and result 0, the latter once everything has arrived, if no ping of the role carries its id |
| RoomReplies.ReplyCanArrive | GameClient/GameClient.cpp:156-170 | some delivery resolves it, so the waiting client can go on |
| FrameSync.FramesAreConsecutive | GameServer/GameServerExample.cpp:115-120 | while role 2 does not enter, frames are numbered consecutively and records are only added |
| FrameSync.StartResetsFrames | GameServer/GameServerExample.cpp:32-40 | the entry of role 2 restarts the numbers: the next frame is number 1 whatever has been recorded |
| FrameSync.RecordIsInTickOrder | GameServer/GameServerExample.cpp:113-129 | from any state with nothing recorded, pending messages allowed, the ticks of the flattened record do not decrease until role 2 enters |
| FrameSync.RecordInTickOrderIff | GameServer/GameServerExample.cpp:32-40 | over all runs, restarts and wrap-around included: the ticks of the record do not decrease if and only if no frame that records something has a smaller number than the last one that did |
| FrameSync.RestartKeepsOrderIff | GameServer/GameServerExample.cpp:32-40 | across an entry of role 2 order is kept if and only if nothing was recorded before or is recorded after, or the last recorded number does not exceed that of the first frame that records something afterwards |
| FrameSync.GameIsInTickOrder | GameServer/GameServerExample.cpp:32-40 | in a game started by role 2 with nothing recorded before, messages pending or not, the record is in tick order |
| FrameSync.StartedGameKeepsOrder | GameServer/GameServerExample.cpp:32-40 | such a game meets the exact condition on the events |
| FrameSync.RestartBreaksOrder | GameServer/GameServerExample.cpp:32-40 | the shortest run that fails: a restart after one recorded message gives the numbers 2, 1 |
| GameRoom.GameServerExample.constructor | GameServer/GameServerExample.cpp:72-80 | the initial state, with frame counter 1 |
| GameRoom.GameServerExample.Control | GameServer/GameServerExample.cpp:13-19 | a control message becomes pending, its client tick still in it |
| GameRoom.GameServerExample.EnterRoom | GameServer/GameServerExample.cpp:21-51 | the list of roles, counter reset, start and replay messages and the reply, in order |
| GameRoom.GameServerExample.OnRoleDisconnect | GameServer/GameServerExample.cpp:53-69 | the first listing of the role is removed, or nothing |
| GameRoom.GameServerExample.Ping | GameServer/GameServerExample.cpp:7-11 | the message is queued back to its role and nothing else changes |
| GameRoom.GameServerExample.Update | GameServer/GameServerExample.cpp:113-129 | through shared references: the frame is recorded, its messages stamped and broadcast, and both lists are left empty |
| GameRoom.GameServerExample.RePlay | GameServer/GameServerExample.cpp:131-140 | the nested loops queue exactly the flattened record, in order |
| GameRoom.GameServerExample.SendMessageByRoleIds | Network/MsgDispatcher.cpp:41-48 | one push per listed role, in order |
| Lockstep.GameController.OnControl | GameClient/GameController.cpp:12-18 | over the life of the object, what was released followed by the deque is what arrived; an arrival is one step of the client machine that the schedule laws are about |
| Lockstep.GameController.PopInput | GameClient/GameController.cpp:30-48 | the loop appends the longest due prefix of the deque to the result and removes it from the deque, one step of the client machine; nothing that arrived is lost |
| Lockstep.OutputThenDeque | GameClient/GameController.cpp:30-48 | in every run output followed by deque is what arrived, in order |
| Lockstep.NothingEarly | GameClient/GameController.cpp:35 | pops up to a frame never release an input of a later one |
| Lockstep.ScheduleIndependent | GameClient/GameController.cpp:30-48 | after a pop at a frame the total output is the longest due prefix of all arrivals, for every interleaving of arrivals and earlier pops |
| Lockstep.ReleasesAllDueIff | GameClient/GameController.cpp:40-43 | the prefix is everything that is due if and only if nothing due stands behind something that is not |
| Lockstep.ReleasesTheFrame | GameClient/GameController.cpp:30-48 | with arrivals in frame order the output is exactly the inputs of frames up to the pop, and later ones make no difference |
| Lockstep.OrderMattersIff | GameClient/GameController.cpp:35-43 | every pop at every frame releases all that is due if and only if the inputs arrive in frame order |
| Lockstep.NeverAheadIff | GameClient/GameController.cpp:35 | because the comparison is unsigned, pops release nothing ahead of their frame if and only if it is not negative |
| SharedGame.EveryClientReleasesTheSame | GameClient/GameController.cpp:12-48 | from the record to the release, over all runs of server, send threads, reads and client thread: a player who entered once, as role 3 or before anything was recorded, and is told at most once that the game starts, survives and has released the recorded messages up to the frame of its last pop, once those have arrived, in the order of the record: each with the role id and direction of its sender and the number of the frame that recorded it |
| SharedGame.EveryClientOfAGame | GameServer/GameServerExample.cpp:21-51 | the same for a game as it is played: role 2 starts it with nothing recorded before, messages pending or not; role 3 enters after the start |
| SharedGame.SeesTheGameIff | GameServer/GameServerExample.cpp:21-51 | what was queued to a role lets every pop at every frame release exactly the recorded inputs up to it if and only if the role is 3 or joined before anything was recorded, and the frame numbers of the record never fall |
| SharedGame.RestartHoldsInputsBack | GameClient/GameController.cpp:30-48 | the shortest run that fails: after a restart a client that has every message releases nothing at frame 1, although an input is due |
| SharedGame.ArrivalsArePrefix | Network/MsgDispatcher.cpp:78-91 | from the outbox to the callbacks of the client: encoding at dispatch, the bytes on the connection, reads, typed messages and the one dispatcher thread bring the first of the packets queued, each field by field; no assertion fails and no message is null; the client has terminated exactly if two game starts reached it |
| SharedGame.RecordedInputs | Message/ControlMessage.h:49-60 | the inputs of the record have the role id and direction of their messages, and the number of the one frame that recorded each |
| SharedGame.EverythingCanArrive | Network/MsgDispatcher.cpp:78-91 | for every outbox and thread count some steps and reads bring every packet of a role to the callbacks of its client |
| SharedGame.ClientSurvivesIff | GameClient/GameClient.cpp:36-41 | no delivery terminates the client of a role if and only if at most one GAME_START was queued to it |
| SharedGame.JoinerSurvivesIff | GameServer/GameServerExample.cpp:32-48 | for a role that enters once and stays: if and only if role 2 enters at most once after it, and never after role 3 |
| SharedGame.WaitingReplayerTerminates | GameServer/GameServerExample.cpp:32-48 | the shortest run that fails: role 3 enters, then role 2, and a complete delivery terminates the client of role 3 |
| GameClients.HandledAll | GameClient/GameClient.cpp:36-41 | over all dispatched messages, the client is terminated exactly if two of them are game starts, and otherwise has every input in order |
| GameClients.RepliesPassCallbacksBy | Network/MsgDispatcher.cpp:82-99 | messages with an id never reach the callbacks |
| GameClients.FirstRequestIsAnswered | GameClient/GameClient.cpp:156-161 | the first request of a client is answered by the first message with id 1 |
| Delivery.HandledEach | Network/MsgThread.h:32-49 | an idle dispatcher can handle any list of pushes completely, in order |
| Delivery.CompleteClient | GameClient/GameClient.cpp:65-70 | for every list of messages some reads and steps deliver all of them to the handlers of a client, in order, through the fixed array |
| SharedGame.QueuedTicksAreFinal | GameServer/MKServer.cpp:10-16 | it makes no difference when a queued message is encoded: its tick is final when it is queued |
| SharedGame.SentControlsArePrefix | Network/MsgDispatcher.cpp:31-67 | in any interleaving of pushes and send threads, the control messages dispatched for a role are the first of those queued to it, in order |
| SharedGame.LateJoinerIsSentTheRecord | GameServer/GameServerExample.cpp:131-140 | from the record to the client: what has arrived at a player who joined as role 3, or before anything was recorded, are the first inputs of the record |
| DispatchSteps.Shard | Network/MsgDispatcher.cpp:37 | every signed role id, negative ones included, has a thread |
| DispatchSteps.ShardOf | Network/MsgDispatcher.cpp:37 | the thread of an id: its remainder, for negative ids that of its two's complement; small ids are spread one by one |
| DispatchSteps.RoleOrder | Network/MsgDispatcher.cpp:31-67 | for every thread count, role id and interleaving: accepted pushes of a role = dispatched, then in hand, then queued in its one shard, in order |
| DispatchSteps.RunConserves | Network/MsgThread.h:32-49 | per thread, over all roles of its shard together: accepted = dispatched, then in hand, then queued, in order, kept by every run |
| DispatchSteps.AcceptedIsPushed | Network/MsgDispatcher.cpp:31-39 | what is accepted is what was pushed, not null, whose test of the flag saw it up, in the order of enqueueing, which may come after the flag went down |
| DispatchSteps.AfterStop | Network/MsgDispatcher.cpp:31-39 | once the flag is down exactly the pushes that tested it before and are no longer in flight are accepted, each once, and each thread calls back at most once more |
| Progress.NoThreadExits | Network/MsgThread.h:32-43 | in every run no thread leaves its loop while the flag is up, timeouts included |
| Progress.EverythingCanBeDispatched | Network/MsgThread.h:32-43 | from every point of every run with the flag up, some continuation dispatches everything accepted, per thread and per role in order, and leaves all threads waiting |
| Progress.ThreadFinishes | Network/MsgThread.h:32-43 | a thread empties its queue by its own steps, whatever the others do not do |
| DispatchSteps.StopOvertakesPush | Network/MsgDispatcher.cpp:33-38 | a push between its test and its queue when the flag goes down is still accepted |
| DispatchSteps.IdsInOrder | Network/MsgDispatcher.cpp:37 | order is kept across all roles that share a thread |
| DispatchSteps.OneThreadOrder | GameClient/GameClient.cpp:15 | with one thread, as in the client, the order of all messages is kept |
| Dispatcher.ThreadSafeQueue.TryPop | Utils/ThreadSafeQueue.h:37-50 | takes the front element, or nothing on a timeout, even if there is one |
| Dispatcher.MsgDispatcher.Start | Network/MsgDispatcher.cpp:50-67 | as many separate threads and queues as asked for, in the initial state of the state machine |
| Dispatcher.MsgDispatcher.Push | Network/MsgDispatcher.cpp:31-39 | if nothing overtakes it, exactly the queue of the shard grows by the message; null messages and a dispatcher that is not started change nothing |
| Dispatcher.MsgDispatcher.PushTest | Network/MsgDispatcher.cpp:33-36 | the first step: goes on exactly for a message that is not null while the flag is up |
| Dispatcher.MsgDispatcher.PushToThread | Network/MsgDispatcher.cpp:37-38 | the second step: to the end of the queue of the shard, whatever the flag is by then |
| Dispatcher.MsgDispatcher.Stop | Network/MsgDispatcher.cpp:69-76 | the shared flag goes down and the queues keep what they hold |
| Dispatcher.MsgDispatcher.RunTest | Network/MsgThread.h:34 | the loop test: on to the queue while started, out otherwise |
| Dispatcher.MsgDispatcher.RunTryPop | Network/MsgThread.h:36-37 | a pop moves the front of the thread's own queue into its hand and touches no other thread; a timeout leads back to the loop test |
| Dispatcher.MsgDispatcher.RunCallBack | Network/MsgThread.h:38-42 | the message in hand is dispatched once, to the handler its type and id select |
| Dispatcher.MsgDispatcher.Dispatch | Network/MsgDispatcher.cpp:78-100 | callback of the type, default callback or promise; an awaited promise is resolved and removed, an unknown id changes nothing |
| Dispatcher.HandlerIs | Network/MsgDispatcher.cpp:78-100 | the handler of a message: its promise exactly where synchronous requests are made and its id is not 0, otherwise the callback of its type, or the default one if there is none |
| Dispatcher.MsgDispatcher.SetSyncMessageId | Network/MsgDispatcher.cpp:114-125 | the id drawn, the message it is written to, and a future, or the error of an id still waited for |
| SyncReplies.RepliesMatchRequests | Network/MsgDispatcher.cpp:78-125 | for one role and fewer than 2^32 requests: ids waited for are those issued and not answered, and each future holds the first later reply with its id |
| SyncReplies.RequestNumbers | Network/MsgDispatcher.cpp:114-125 | the requests of one role draw 1, 2, 3, ... and never collide |
| SyncReplies.ReplyNumbers | Network/MsgDispatcher.cpp:92-99 | an awaited reply resolves its own future only; unknown and repeated replies change nothing |
| SyncReplies.RolesCollideIff | Network/MsgDispatcher.cpp:116-123 | with fewer than 2^32 requests two requests overlap with one id if and only if they are of different roles, have the same number among those of their role, and the first is unanswered |
| SyncReplies.RequestsFailIff | Network/MsgDispatcher.cpp:114-125 | over all runs of any roles: some request gets no future if and only if two requests with one id overlap, the first unanswered when the second is made |
| SyncReplies.AllRolesGetTheirReplies | Network/MsgDispatcher.cpp:78-125 | without such an overlap every request of every role has its own future, which holds the first later reply with its id |
| SyncReplies.FirstRequestsCollide | Network/MsgDispatcher.cpp:116-123 | the first requests of two roles: the second fails |
| SyncReplies.WrapsToAsync | Network/MsgDispatcher.cpp:116 | over all runs of any roles, failing requests included: the next id of a role marks asynchronous messages exactly if its requests so far are 2^32 - 1 modulo 2^32 |
| ConnectionMaps.RunCoherent | GameServer/GameServer.cpp:8-60 | in every run with nonzero role ids and distinct live names: each role entry is a live connection of that role, and the names of live connections are keys of the name map |
| ConnectionMaps.StepCoherentIff | GameServer/GameServer.cpp:8-90 | a step breaks coherence if and only if it connects a name of a live connection or the connection registered under role id 0 sends another role id |
| ConnectionMaps.RunCoherentIff | GameServer/GameServer.cpp:8-90 | a run is coherent at every point if and only if it has no such step, zero role ids included |
| ConnectionMaps.StepNamesIff | GameServer/GameServer.cpp:8-60 | the name map stays exactly the live connections under their names if and only if a connecting name is not listed and a closing connection has its role registered |
| ConnectionMaps.RunNamesIff | GameServer/GameServer.cpp:8-60 | the same at every point of a run |
| ConnectionMaps.MapsAreExact | GameServer/GameServer.cpp:8-90 | in every run of steps that keep both, the name map is exactly the live connections and the role map, 0 aside, exactly those that told their role |
| ConnectionMaps.RunExactIff | GameServer/GameServer.cpp:8-90 | both maps are exact at every point of a run if and only if no listed name connects, no connection closes while its role is not registered, and none takes the role of another |
| ConnectionMaps.OrderlyKeepsExact | GameServer/GameServer.cpp:8-90 | a name no live connection has, a role nobody plays, and a close after the role was told are such steps |
| ConnectionMaps.SilentCloseShutsOutName | GameServer/GameServer.cpp:25-34 | a connection that closes without a registered role stays listed, and the next one of its name is not listed |
| ConnectionMaps.ZeroRoleBreaksCoherence | Network/GameConnection.cpp:77-84 | any connection that sends role id 0 first registers twice, and the entry of role 0 holds a connection of another role |
| ConnectionMaps.RegistersUnderFirstRole | GameServer/GameServer.cpp:86-90 | a connection that has a role keeps it and gains no further entry in any run |
| ConnectionMaps.CloseRemovesIff | GameServer/GameServer.cpp:25-60 | from any state: the role is unregistered, the name goes and the disconnect is reported exactly if the role was registered and the name listed, and every other entry stays |
| ConnectionMaps.StepReachableIff | GameServer/GameServer.cpp:86-90 | from any state, a step keeps every live connection reachable under its role if and only if it does not give a connection without role the role of another live one |
| ConnectionMaps.RunReachableIff | GameServer/GameServer.cpp:86-90 | the same at every point of a run, both directions |
| ConnectionMaps.RunSound | GameServer/GameServer.cpp:25-60 | in every run, entries of roles other than 0 are live connections of that role |
| ConnectionMaps.RoleMapIsExact | GameServer/GameServer.cpp:8-90 | while no connection takes the role of another, the role map, 0 aside, is exactly the live connections that told their role, both directions, whatever role ids they send later |
| ConnectionMaps.SharedRoleLosesConnection | GameServer/GameServer.cpp:25-60 | of two connections of one role, closing the first makes the second unreachable and leaves its name listed after it closes |
| ServerMaps.GameServer.OnNewTcpConnection | GameServer/GameServer.cpp:8-23 | a new connection is inserted under its name unless the name is taken |
| ServerMaps.GameServer.OnMessage | Network/GameConnection.cpp:77-84 | the first message of a connection without role sets it and registers it, overwriting the entry |
| ServerMaps.GameServer.OnConnectionClose | GameServer/GameServer.cpp:25-60 | the three outcomes of a close on both maps and the disconnect callback |
| ServerMaps.FramesRegister | Network/GameConnection.cpp:77-84 | the registration calls of the parse loop leave the maps as the messages taken one by one do |
| ConnectionLife.EndReachesMaps | Network/TcpConnection.cpp:15-25 | end of file or reset on a read: the connection leaves the live ones, its role is unregistered, its name goes and the disconnect of its role is reported |
| ConnectionLife.OtherErrorLeavesMaps | Network/TcpConnection.cpp:15-25 | any other error stops the reads and leaves maps and reports as they are |
| ConnectionLife.DataOnlyTellsRole | Network/GameConnection.cpp:54-98 | bytes never end a connection; they can only register its role, once |
| ConnectionLife.LiveIff | Network/TcpConnection.cpp:15-25 | over all runs of reads of all connections: the server holds a connection as live if and only if it accepted it and no read of it gave end of file or reset |
| ConnectionLife.StoppedStaysLive | Network/TcpConnection.cpp:15-25 | a connection stopped by another error is never taken off |
| ConnectionLife.MapsFollowReads | GameServer/GameServer.cpp:8-60 | in every orderly run of reads the maps list exactly the connections accepted and not ended, by name and role, and the disconnect of every ended one was reported, in order |
| EndToEnd.HandlersSeeWhatWasSent | GameServer/MKServer.cpp:19-25 | for every list of messages of any roles, chunking, thread count and interleaving: the handler calls for a role are a prefix of what was sent for it, equal in every field; while started, what was handed over is dispatched, in hand, queued or about to be enqueued |
| EndToEnd.ItemsSeenAreThoseSent | GameServer/MKServer.cpp:19-25 | the same for all roles that share a thread, in their common order |
| EndToEnd.OneThreadSeesAllInOrder | GameClient/GameClient.cpp:65-70 | a dispatcher with one thread, fed by one connection, as in a client: the handler calls of all roles are the first of the messages sent, in the order of sending |
| BuffersIterator.PlaceIsUnique | Third/asio/asio/buffers_iterator.hpp:493-498 | with empty buffers anywhere, the position determines buffer and offset, both directions |
| BuffersIterator.ByteOfBuffer | Third/asio/asio/buffers_iterator.hpp:341-345 | the byte at an offset of a buffer is the byte of the flattened sequence at that position |
| BuffersIterator.Iterator.Begin | Third/asio/asio/buffers_iterator.hpp:167-184 | position 0, at the first non-empty buffer or the end |
| BuffersIterator.Iterator.End | Third/asio/asio/buffers_iterator.hpp:187-203 | position = total size, past the last buffer |
| BuffersIterator.Iterator.Dereference | Third/asio/asio/buffers_iterator.hpp:341-345 | the flattened byte at the position |
| BuffersIterator.Iterator.Increment | Third/asio/asio/buffers_iterator.hpp:354-374 | one position on, valid again behind any number of empty buffers |
| BuffersIterator.Iterator.Decrement | Third/asio/asio/buffers_iterator.hpp:377-404 | one position back, valid again before any number of empty buffers |
| BuffersIterator.Iterator.AdvanceForward | Third/asio/asio/buffers_iterator.hpp:409-441 | terminates at exactly the asked-for position, end included |
| BuffersIterator.Iterator.AdvanceBackward | Third/asio/asio/buffers_iterator.hpp:442-484 | terminates at exactly the asked-for position, the inner search always finding a buffer |
| BuffersIterator.Iterator.Advance | Third/asio/asio/buffers_iterator.hpp:407-485 | both directions, and zero |
| BuffersIterator.Iterator.At | Third/asio/asio/buffers_iterator.hpp:218-223 | element access at a signed distance is the flattened byte there, and the iterator does not move |
| BuffersIterator.Iterator.Equal | Third/asio/asio/buffers_iterator.hpp:348-351 | comparing positions alone decides whether two iterators are at the same place |
| BuffersIterator.Iterator.MoveTo | Third/asio/asio/buffers_iterator.hpp:488-491 | advancing by the distance to another iterator leads to its place |
| BuffersIterator.AdvanceEqualsSteps | Third/asio/asio/buffers_iterator.hpp:354-485 | advance(n) ends at the same place as n increments or -n decrements |
| BufferCopy.BufferCopy1 | Third/asio/asio/buffer.hpp:2173-2183 | copies the smaller size and changes no other memory |
| BufferCopy.BufferCopyOneOne | Third/asio/asio/buffer.hpp:2185-2201 | min(target, source, limit) bytes copied, nothing else changed |
| BufferCopy.BufferCopyOneMany | Third/asio/asio/buffer.hpp:2203-2224 | the same for one target and a sequence of sources |
| BufferCopy.BufferCopyManyOne | Third/asio/asio/buffer.hpp:2226-2247 | the same for a sequence of targets and one source |
| BufferCopy.BufferCopyManyMany | Third/asio/asio/buffer.hpp:2249-2291 | the same for two sequences without limit |
| BufferCopy.BufferCopyManyManyMax | Third/asio/asio/buffer.hpp:2293-2339 | the same for two sequences with a limit, terminating although a limited copy may use up neither buffer |
| BufferCopy.OverloadsAgree | Third/asio/asio/buffer.hpp:2154-2164 | all overloads return the same count and leave the same memory; the flattened target is the source prefix followed by its old tail |

## Left out

- Sockets, resolver, acceptor, `io_context`, signals and `AsioServer`: input and output; a completed read is a step.
- `GameClient` connect and stop, delay measurement, clocks, sleeps and the timing loop: wall-clock behaviour. The
  timestamps of start messages are parameters.
- Logging, `DebugMessage` and the tables of enum names: output only.
- `SwapBuffer`, `Reset`, `DropAllData`, `ReadAllAsString` and the move constructor of `Buffer`: unused or easy.
- Sizes of 2^32 bytes and more, where the decoder cuts the readable size to 32 bits, and `size_t` overflow: the
  connection's array is 4104 bytes.
- Aliasing of appended data with the buffer's own memory: appended bytes are values.
- Unlocked accesses (the frame record, the list of roles, the input deque, the promise lookup in `Dispatch`, the flag
  of the dispatcher): every handler, queue operation, flag test and callback is one atomic step.
- The lookup of `SendMessageById` while packets are under way: `SharedGame` takes the connection of a role as registered
  from its first packet on. `ConnectionMaps` proves when it is.
- `AsyncSendData` beyond the order of the bytes: what is handed to it arrives, in order, in full or up to some point.
  The lifetime of the local buffer behind an unfinished write is not modelled.
- Several connections of one client that share its dispatcher: `EndToEnd.OneThreadSeesAllInOrder` and `SharedGame` are
  about a client with one connection; `EndToEnd.HandlersSeeWhatWasSent` allows others, for other roles.
- `basic_streambuf` and the rest of asio: template plumbing and thin calls; `buffer_size` is the length of the
  flattened addresses.
- Dispatcher.MsgDispatcher.Start: models the first start only, because a restart after `Stop` adds threads to the old
  ones while the old ones have left.
- Dispatcher.MsgDispatcher.Stop: states the clearing of the flag, because joining the threads only waits for steps that
  the state machine lets them take.
- BufferDeque.Buffer.AdjustBuffer: requires a read index of at least 8, because below it the destination of the copy
  lies inside its source, which `std::copy` does not define.
