# Verified models of the Linux Terminal Service Manager core

This project models the parts of LTSM where correctness is hardest to see, and
proves what they are for:

- the **channel multiplexer** of `src/channels/channel_system.cpp`: id
  allocation, the two-party handshake over two ordered links, the byte path of a
  connector and the way its two worker threads close it;
- the **concurrency and stream layers**: `async_mutex`, the GSSAPI framing layer
  with the cursor buffer under it, and the socket retry loops;
- the **framebuffer and its geometry**: regions, tilings, fills, blits,
  run-length encoding, palettes, histograms and pixel format conversion, each
  with the parallel form the code switches to;
- the **codecs**: base64, JSON string escaping, and the decoder from a token
  list to a value tree.

`dafny verify dfyconfig.toml` checks everything.

## How the model is laid out

| module | what it models |
|---|---|
| MachineInts, Wrappers, Arithmetic, Sequences, Bits | fixed-width integers, option and exception results, products and quotients, sequences, bit operations on 32-bit words |
| AsyncMutex, MutexProgress, MutexCancel | the lock as a state machine over its atomic steps, the class whose methods are those steps, progress under fair scheduling, and what cancel does |
| ChannelSystem, ChannelIds, ChannelLaws, Handshake | the endpoint's tables and handlers, the id law over all server histories, what each handler does to each id, both endpoints with both links |
| ConnectorThreads, ConnectorErrors, ConnectorEnds, ChannelStreams | every interleaving of a connector's threads, their reports and their end, and the two stream classes |
| EndToEnd | the threads of two connectors, both endpoints and the links together |
| ByteOrder, StreamBuffers, GssLayer, NetworkStream | byte order, the cursor buffer, framing, send and receive loops |
| Geometry, Tiling | points, walks, intersections, damage regions, exact tilings |
| PixelFormats, PixelColours, PixelLayout, FrameBuffers, Blits, ShownColours, PixelScans | conversion and its meaning, where pixels lie, drawing, blitting, the colours that are seen, scanning |
| Escaping, EscapeSyntax, Base64, JsonDecoder | the codecs |

Objects whose methods update fields are classes with those fields; loops are
loops; each method is tied by its contract to a specification function, and the
results are proved about that function. Exceptions are `Throws` or a `false`
result. Parallel jobs are modelled by choosing, at every moment, any job that can
go on. System calls and the growth of a vector's capacity are arbitrary.

## What turned out to be different from what one might expect

- A channel with the login-session flag, created while the session is a user
  session, is established, and then its first data frame makes the server throw.
  `Handshake.ServerAcceptsDataIff` is the exact condition,
  `Handshake.LoginChannelIsRefused` a run.
- A channel between a ReadWrite and a ReadOnly end is accepted, and what the first
  sends is dropped by the second (`EndToEnd.ReaderIgnoresData`).
- A task that registers its wait in `async_lock` just after `cancel` is stranded
  (`MutexCancel.LateWaiterIsStranded`, with `MutexCancel.CancelTooEarly` as a run).
- A failed write in the draining loop of `loopWriter` is not reported;
  `ConnectorErrors.FailuresAreReported` counts the others.
- A pixel without alpha becomes transparent in a format with alpha, unless the
  formats differ in nothing else (`PixelColours.AlphaIs`).
- `join` with a region left of or above the origin forgets what was joined
  (`Geometry.NegativeIsForgotten`).
- `countFreeChannels` reports one less than the true number of free ids.
- `unescaped(escaped(s))` drops zero characters; `Escaping.RoundTripIff` is the
  exact condition, `Escaping.ZeroIsLost` an example.
- A frame of 2^32 bytes or more is cut by its own header;
  `GssLayer.FrameRoundTripIff` is the exact condition, `GssLayer.HugeFrameIsCut`
  an example.
- `divideBlocks` does not end when a block side is zero, and its counters can
  wrap for larger sides; `Tiling.LeavesIff` is the exact condition,
  `Tiling.WrapAt65535` an example. The scans that divide a region of more than
  1024 pixels into four bands ask for a zero band height when the region has fewer
  than four rows, and then never return (`PixelScans.BandLoopEndsIff`, with
  `PixelScans.TwoRowsNeverEnd` as an example), so the band forms require four rows.
- A walk with `PointIterator` stops early when a row has more than 32767 points;
  `Geometry.WalkCompleteIff` is the exact condition, `Geometry.WideRowsEndEarly`
  an example.
- The job forms of `fillPixel` and `blitRegion` never look at their jobs' results:
  an exception ends up in the promise of `AsyncJob`, whose destructor only waits.
  At an unknown depth the sequential forms throw and the job forms return normally,
  having drawn nothing. `FrameBuffers.FillFormsAgreeIff` and
  `Blits.BlitFormsAgreeIff` say when the forms agree; `FrameBuffers.FifteenBitsFill`
  and `Blits.FifteenBitsBlit` are examples. The scans ask each job for its result,
  so theirs do throw.
- `blitRegion` does not shift the source when the target's top left is clipped;
  `Blits.SourceAlignedIff` is the exact condition for the picture to stand where it
  was asked for, `Blits.DisplacedPixel` an example.
- `join` can wrap when the hull is wider than 65535;
  `Geometry.JoinIsLeastBoxIff` is the exact condition, `Geometry.WideJoinIsCut` an
  example.
- `convertMax` can overflow its signed product only for channel masks with gaps
  (`PixelFormats.ProductIsInt`, `PixelFormats.ProductOverflows`).
- After a failed read `loopReader` still sends what the failed read left in its
  buffer (`ConnectorThreads.SentIsRead`).

## Model

| member | source | states |
|---|---|---|
| AsyncMutex.MutualExclusion | src/common/ltsm_async_mutex.h:43-74 | until cancel, in every run of fewer than 2^32 tasks and every interleaving of the atomic steps, at most one task holds the lock or carries a hand-over, and one does exactly while `queue_` is positive |
| AsyncMutex.NoLostWakeUp | src/common/ltsm_async_mutex.h:64-74 | an unlocker that is about to look or is looking for somebody to wake always has another task that waits or is about to wait |
| MutexProgress.UnlockEnds | src/common/ltsm_async_mutex.h:64-74 | in every endless uncancelled execution in which possible steps are not put off for ever, a task in the wake-up loop of unlock leaves it, by a `cancel_one` that wakes the oldest waiter |
| MutexProgress.NoStarvation | src/common/ltsm_async_mutex.h:43-74 | no starvation: in every such execution each async_lock that found the mutex not cancelled ends with the lock, wherever it stands |
| MutexProgress.WaiterGetsLock | src/common/ltsm_async_mutex.h:51-60 | so does every task whose wait is registered |
| MutexProgress.NextHandOver | src/common/ltsm_async_mutex.h:64-74 | whenever somebody waits there is a later hand-over |
| AsyncMutex.FifoHandOver | src/common/ltsm_async_mutex.h:48-72 | tasks take the lock after a wait in the order in which they registered their waits |
| AsyncMutex.BoundedBypass | src/common/ltsm_async_mutex.h:48-72 | over any stretch of an uncancelled run, the task at place k of the wait queue has moved up by exactly the number of hand-overs, and is the one woken by hand-over k + 1: nobody overtakes it |
| AsyncMutex.QueueIsExact | src/common/ltsm_async_mutex.h:35-66 | `queue_` is the number of tasks that hold, wait or are about to wait, so the 32-bit counter does not wrap |
| AsyncMutex.StepInv | src/common/ltsm_async_mutex.h:43-80 | every single atomic step keeps the token, queue and order laws |
| AsyncMutex.RunInv | src/common/ltsm_async_mutex.h:43-80 | every state of every run satisfies them |
| AsyncMutex.Mutex.CheckCancelled | src/common/ltsm_async_mutex.h:44-46 | the object's fields change exactly as the state machine's step: a lock attempt stops when the mutex is cancelled |
| AsyncMutex.Mutex.JoinQueue | src/common/ltsm_async_mutex.h:48-48 | the object's fields change exactly as the state machine's step: fetch_add in place: the first task acquires, the others go on to wait |
| AsyncMutex.Mutex.Wait | src/common/ltsm_async_mutex.h:51-51 | the object's fields change exactly as the state machine's step: registering a wait puts the task at the end of the timer's queue |
| AsyncMutex.Mutex.ResumeAfterWait | src/common/ltsm_async_mutex.h:52-60 | the object's fields change exactly as the state machine's step: a woken task holds the lock, unless cancel came first |
| AsyncMutex.Mutex.LeaveQueue | src/common/ltsm_async_mutex.h:65-65 | the object's fields change exactly as the state machine's step: fetch_sub in place, and whether somebody must be woken |
| AsyncMutex.Mutex.RecheckCancelled | src/common/ltsm_async_mutex.h:66-68 | the object's fields change exactly as the state machine's step: an unlocker of a cancelled mutex wakes nobody |
| AsyncMutex.Mutex.WakeOne | src/common/ltsm_async_mutex.h:70-72 | the object's fields change exactly as the state machine's step: one `cancel_one`: the oldest waiter is woken and the count returned |
| AsyncMutex.Mutex.Cancel | src/common/ltsm_async_mutex.h:76-80 | the object's fields change exactly as the state machine's step: cancel wakes everybody and resets the counter |
| MutexCancel.CancelWakesAll | src/common/ltsm_async_mutex.h:76-80 | the timer's cancel wakes every waiting task, touches no other, and leaves nobody waiting |
| MutexCancel.CancelledGiveUp | src/common/ltsm_async_mutex.h:44-68 | after cancel a new call, a woken task and an unlocker all give up |
| MutexCancel.NobodyPassesAfterCancel | src/common/ltsm_async_mutex.h:58-60 | in every run, once the flag is set nobody takes the lock out of a wait any more |
| MutexCancel.StrandedForever | src/common/ltsm_async_mutex.h:48-80 | a task that waits after cancel, with nobody in the loop of unlock, waits for ever unless cancel is called again |
| MutexCancel.LateWaiterIsStranded | src/common/ltsm_async_mutex.h:48-80 | a task that joined the queue before cancel and registers its wait afterwards is such a task |
| MutexCancel.CancelTooEarly | src/common/ltsm_async_mutex.h:76-80 | a run of two tasks in which that happens |
| ChannelSystem.FirstFree | src/channels/channel_system.cpp:662-669 | the id search returns the smallest unused id of 1..254, and 255 exactly when it skipped only used ones |
| ChannelSystem.FindChannel | src/channels/channel_system.cpp:281-288 | the first connector with that id, or none when no connector has it |
| ChannelSystem.FindPlanned | src/channels/channel_system.cpp:290-297 | the first planned channel with that id, or none when none has it |
| ChannelSystem.ChannelClient.LocateChannel | src/channels/channel_system.cpp:281-288 | a loop over the list finds what FindChannel specifies |
| ChannelSystem.ChannelClient.LocatePlanned | src/channels/channel_system.cpp:290-297 | a loop over the list finds what FindPlanned specifies |
| ChannelSystem.ChannelClient.CreateChannel | src/channels/channel_system.cpp:633-687 | the whole new state of the lists and the outgoing stream: a planned entry and an Open frame with the first free id, or nothing when the modes, the types or the table refuse |
| ChannelSystem.ChannelClient.SystemChannelOpen | src/channels/channel_system.cpp:358-429 | the whole new state: a connector that announces itself, or a refusal frame and nothing else |
| ChannelSystem.ChannelClient.SystemChannelConnected | src/channels/channel_system.cpp:484-547 | the whole new state and the answer: planned entry removed, connector built, flag set; refused, or a server type without a factory: false; an exception of the factory goes on; every refusal keeps the connectors as they were |
| ChannelSystem.ChannelClient.ChannelPlannedCreate | src/channels/channel_system.cpp:432-482 | a built connector joins the table; a factory that failed goes unnoticed, a missing one answers false or throws |
| ChannelSystem.ChannelClient.SearchFree | src/channels/channel_system.cpp:662-669 | the search loop returns the id that FirstFree specifies |
| ChannelSystem.ChannelClient.RecvChannelData | src/channels/channel_system.cpp:325-356 | which of the four exceptions is thrown, in the code's order, or delivery |
| ChannelSystem.ChannelClient.DestroyChannel | src/channels/channel_system.cpp:895-912 | the connector with that id is told to stop, and after the pause removed; nothing else changes |
| ChannelSystem.ChannelClient.CountFreeChannels | src/channels/channel_system.cpp:299-310 | 255 less the used ids and two more, or an exception |
| ChannelLaws.CreateAnswer | src/channels/channel_system.cpp:633-687 | createChannel succeeds exactly when one side can read what the other writes, the types are known and an id is free; then the planned entry has the server's mode and the Open frame the client's, both under the least free id, and otherwise nothing changes |
| ChannelLaws.RefusalBuildsNothing | src/channels/channel_system.cpp:498-507 | an answer with the error flag: the first planned entry of the id goes, no connector is built, nothing is sent, and the result is false |
| ChannelLaws.AcceptanceBuilds | src/channels/channel_system.cpp:484-547 | an answer without it: a connector of the planned mode that runs, is remote-connected and was announced, every other id being as before; or, by the factory's outcome, nothing but the loss of the planned entry |
| ChannelLaws.AnswerOnlyMarks | src/channels/channel_system.cpp:539-544 | an answer for an id that is not planned marks its connector and changes nothing else |
| ChannelLaws.OpenAnswer | src/channels/channel_system.cpp:358-429 | the client builds a running connector of the mode asked for, which announces itself, exactly in a user session, for a valid free id, a known mode and a factory that succeeds; otherwise it sends one frame that reports the error and changes nothing |
| ChannelLaws.DataAnswer | src/channels/channel_system.cpp:325-356 | which exception a data frame meets, and that it is delivered exactly to a running, remote-connected connector of the right session |
| ChannelLaws.CloseTouchesOne | src/channels/channel_system.cpp:895-912 | closing an id removes exactly the first connector of that id, if there is one; every other id has the same connector before, during and after the pause, in the same order, and planned entries and frames stay |
| ChannelLaws.ClosedIsGone | src/channels/channel_system.cpp:895-912 | in a consistent table the closed id has no connector left |
| ChannelLaws.OnlyClosingRemoves | src/channels/channel_system.cpp:484-547 | in every server history a connector leaves its id exactly when that id is closed, and keeps mode, flags and run state until then |
| ChannelSystem.ClosingRefusesData | src/channels/channel_system.cpp:895-912 | from the first half of destroyChannel on, data for that id is refused: not running during the pause, not found after it when ids are distinct |
| ChannelIds.IdsDistinctAndValid | src/channels/channel_system.cpp:484-547 | after any sequence of server operations the ids of running and planned channels together are pairwise distinct and in 1..254 |
| ChannelIds.StepKeepsIds | src/channels/channel_system.cpp:484-547 | one operation (create, connected, refused, destroy) keeps that law |
| ChannelIds.CreateKeepsIds | src/channels/channel_system.cpp:662-679 | so does planning a channel |
| ChannelIds.Pigeonhole | src/channels/channel_system.cpp:662-673 | distinct numbers of 1..n are at most n, and n of them are all of 1..n |
| ChannelIds.SearchFailsIffFull | src/channels/channel_system.cpp:662-673 | the id search fails exactly when all 254 ids are in use |
| ChannelIds.AllocationSucceedsIffRoom | src/channels/channel_system.cpp:633-687 | in every reachable state an acceptable request succeeds exactly when fewer than 254 ids are used, and gets an unused id |
| ChannelIds.CountFreeIsSafe | src/channels/channel_system.cpp:299-310 | in every reachable state countFreeChannels throws exactly when no id is free, never exceeds the true number of free ids (it is one less), and a positive count means an id is free |
| Handshake.HandshakeSafety | src/channels/channel_system.cpp:325-356 | in every run of both endpoints and both links, with user-session flags, a data frame at the head of either link finds its connector present, connected and running: recvChannelData does not throw |
| Handshake.ClientAcceptsData | src/channels/channel_system.cpp:325-356 | the client accepts every data frame it can receive in any run |
| Handshake.ServerAcceptsDataIff | src/channels/channel_system.cpp:325-356 | the server accepts a data frame in any run exactly when the channel's flags admit its session |
| Handshake.LoginChannelIsRefused | src/channels/channel_system.cpp:1335-1337 | a run in which a channel with the login-session flag is established and its first data frame is refused |
| Handshake.QuietMeansEstablished | src/channels/channel_system.cpp:484-547 | when both links are empty nothing is planned, and every id either runs and is connected on both sides, with the server's mode on the server and the client's on the client, one of which reads what the other writes, or has nothing on either side and is free |
| Handshake.LinkIsFifo | src/channels/channel_system.cpp:325-356 | in every run and on either link, the data frames of an id that were taken are the first of those put on it, and the link holds the rest |
| Handshake.LinkStep | src/channels/channel_system.cpp:358-547 | an event appends what it puts on a link, takes from its front, and handling a frame adds no data |
| Handshake.RequestStays | src/channels/channel_system.cpp:484-547 | what an id was created for stays with it until the server takes the client's refusal, and then nothing of the id is left on either side or link |
| Handshake.RefusalFreesId | src/channels/channel_system.cpp:498-507 | a refused request is never established: it stays refused until the server takes the answer, and then the id can be given out again |
| Handshake.RefusedChannelRun | src/channels/channel_system.cpp:423-428 | a run in which the client cannot open the only channel: afterwards both tables and both links are as at the start |
| Handshake.ConnectorsStay | src/channels/channel_system.cpp:484-547 | a connector, once built, stays, with its mode |
| Handshake.StepInv | src/channels/channel_system.cpp:484-547 | every event keeps every id in one phase of the handshake, across both endpoints and both links |
| Handshake.RunInv | src/channels/channel_system.cpp:484-547 | every state of every run satisfies the invariant |
| Handshake.ServerReceivesPhase | src/channels/channel_system.cpp:484-547 | what the server does with a frame moves the frame's id to its next phase and leaves every other id alone |
| Handshake.ClientReceivesPhase | src/channels/channel_system.cpp:358-429 | the same for the client |
| Handshake.CreatePhase | src/channels/channel_system.cpp:633-687 | planning a channel starts its id in the first phase, with the two modes it was asked for |
| ConnectorThreads.AcceptedIsPrefix | src/channels/channel_system.cpp:1128-1162 | under every interleaving and every pattern of short writes, retries and errors the bytes taken by the descriptor are a prefix of the pushed buffers, inflated, in order; transfer2 is their number |
| ConnectorThreads.WriterDrains | src/channels/channel_system.cpp:1355-1393 | when loopWriter ends without a failed write, the descriptor has taken everything that was pushed before its last emptiness test |
| ConnectorThreads.SentIsRead | src/channels/channel_system.cpp:1395-1428 | in every run the payloads sent, with the one about to be sent, inflate to exactly the bytes read, in order; after a failed read they are followed by at most one more, which is the buffer that read left |
| ConnectorThreads.ClosesOnce | src/channels/channel_system.cpp:1389-1427 | in each mode, once the threads have ended exactly one close frame was sent, and no data frame follows it |
| EndToEnd.AcceptedIsRead | src/channels/channel_system.cpp:1355-1428 | in every run of both connectors' threads, both endpoints and the links, in either direction, what the far descriptor takes is a prefix of what was read at the near one (after a failed read, of that and the leftover buffer); the threads start when the endpoints build the connectors |
| EndToEnd.DeliveredInOrder | src/channels/channel_system.cpp:325-356 | in every such run the buffers pushed at the far end are the first payloads sent at the near one; while the far connector runs and writes and the session is admitted the rest is on the link |
| EndToEnd.QuietMeansAllArrived | src/channels/channel_system.cpp:1355-1428 | when nothing is between read and write any more, the far descriptor has taken exactly what was read |
| EndToEnd.StepInv | src/channels/channel_system.cpp:1355-1428 | each move of a thread or of the link keeps the joint invariant |
| EndToEnd.LinkDelivery | src/channels/channel_system.cpp:325-356 | a frame taken from the link is pushed or refused, and order is kept |
| EndToEnd.ModesAreAsked | src/channels/channel_system.cpp:633-687 | the threads at both ends have the modes createChannel was asked for: a reading end faces one that writes |
| EndToEnd.ReaderIgnoresData | src/channels/channel_system.h:311-311 | an end that only reads writes nothing, whatever is sent to it, although its mode is accepted together with ReadWrite |
| ConnectorErrors.FailuresAreReported | src/channels/channel_system.cpp:1355-1428 | in every run, once both threads have ended, exactly as many errors were reported as reads failed and as writes failed outside the draining loop; never more before |
| ConnectorErrors.StepReports | src/channels/channel_system.cpp:1355-1428 | each step either adds a failure that is owed or turns an owed one into a frame |
| ConnectorEnds.ReaderIsBounded | src/channels/channel_system.cpp:1395-1428 | once the connector is stopped its reader takes at most six more steps, however the threads take turns |
| ConnectorEnds.WriterIsBounded | src/channels/channel_system.cpp:1355-1393 | and its writer, without further pushes, no more steps than there is work in its queue, besides repeated writes |
| ConnectorEnds.FlagIsCleared | src/channels/channel_system.cpp:1355-1428 | the running flag is cleared by a stop and after a failed read or write, and by nothing else |
| ConnectorThreads.NoEmptyFrames | src/channels/channel_system.cpp:1410-1416 | the empty buffer is never sent |
| ConnectorThreads.StepInv | src/channels/channel_system.cpp:1355-1428 | every step of every thread keeps the conservation and closing laws |
| ConnectorThreads.WriterStepConserves | src/channels/channel_system.cpp:1128-1162 | a step of the writer keeps accepted, half-written and queued bytes equal to what was pushed, and both counters exact |
| ConnectorThreads.ReaderStepInv | src/channels/channel_system.cpp:1217-1265 | each step keeps the account of bytes read, pending, sent and left over, also after a failed read |
| ConnectorThreads.CloseStep | src/channels/channel_system.cpp:1389-1427 | a step keeps at most one close frame and nothing but errors after it |
| ChannelStreams.Remote2Local.IsEmpty | src/channels/channel_system.cpp:1094-1097 | whether the queue is empty |
| ChannelStreams.Remote2Local.PushData | src/channels/channel_system.cpp:1099-1102 | the buffer joins the end of the queue, and the conservation law is kept |
| ChannelStreams.Remote2Local.PopData | src/channels/channel_system.cpp:1104-1126 | the front buffer leaves the queue; a queue of more than ten shortens the delay |
| ChannelStreams.Remote2Local.HandOver | src/channels/channel_system.cpp:1142-1159 | the writing loop: how many bytes the descriptor takes and how the loop ends, for every list of answers |
| ChannelStreams.Remote2Local.WriteData | src/channels/channel_system.cpp:1128-1162 | the whole new state: the front buffer is popped, and of its inflated bytes exactly those are accepted that the answers take; finished, failed, or still inside the call |
| ChannelStreams.Local2Remote.ReadData | src/channels/channel_system.cpp:1217-1265 | what buf, the counters and the result are after one chunk, an empty input, a retry, the end of the file or an error |
| ChannelStreams.WrittenConserves | src/channels/channel_system.cpp:1128-1162 | a popped buffer of which any number of bytes was accepted leaves the conservation law intact |
| ChannelStreams.StepsAreOneCall | src/channels/channel_system.cpp:1142-1159 | the single steps of the writer's thread and the loop inside one call have the same effect for the same answers |
| ByteOrder.EndianRoundTripIff | src/common/ltsm_streambuf.cpp:89-191 | in either byte order an integer that was put is got back exactly when it fits the bytes |
| ByteOrder.BigIsReversed | src/common/ltsm_streambuf.cpp:170-191 | the big-endian form, made by a byte swap, is the little-endian bytes in reverse |
| ByteOrder.BigEndianValue | src/common/ltsm_streambuf.cpp:119-147 | reading big-endian gives the first byte the highest weight |
| ByteOrder.PutOfGet | src/common/ltsm_streambuf.cpp:119-191 | bytes read as an integer come back when the integer is put |
| ByteOrder.LoadOfImageIsCut | src/common/ltsm_streambuf.cpp:149-168 | storing n bytes of an integer keeps it modulo 256^n |
| StreamBuffers.StreamBuf.GetRaw | src/common/ltsm_streambuf.cpp:516-525 | takes the next bytes, or throws exactly when there are too few and then takes none |
| StreamBuffers.StreamBuf.PutRaw | src/common/ltsm_streambuf.cpp:527-535 | appends to what is left to read; the cursor stays |
| StreamBuffers.StreamBuf.Read | src/common/ltsm_streambuf.cpp:537-550 | as getRaw, with zero meaning everything |
| StreamBuffers.StreamBuf.Skip | src/common/ltsm_streambuf.cpp:552-559 | drops bytes, or throws and drops none |
| StreamBuffers.StreamBuf.Last | src/common/ltsm_streambuf.cpp:561-564 | the number of bytes left to read |
| StreamBuffers.StreamBuf.Shrink | src/common/ltsm_streambuf.cpp:592-602 | what is left to read does not change, and at most nine tenths of the buffer are waste |
| GssLayer.Transparent | src/common/ltsm_sockets.cpp:1158-1231 | whatever calls both sides made, the bytes received are the first bytes of those sent and flushed by the peer (frames shorter than 2^32) |
| GssLayer.Complete | src/common/ltsm_sockets.cpp:1158-1231 | when all that was flushed has arrived and the receiver waits, received, buffered and unsent bytes make up all bytes sent |
| GssLayer.FramesAgree | src/common/ltsm_sockets.cpp:1209-1231 | frames read off a wire are the first frames written to it, all of them once it is read out |
| GssLayer.FrameRoundTripIff | src/common/ltsm_sockets.cpp:1209-1231 | a frame is parsed back, whatever follows it, exactly when its payload is shorter than 2^32 |
| GssLayer.HugeFrameIsCut | src/common/ltsm_sockets.cpp:1221-1231 | a payload of 2^32 bytes is parsed as an empty one, its bytes being left for the next header |
| GssLayer.ParseIsFrame | src/common/ltsm_sockets.cpp:1209-1219 | whatever is parsed is a frame of that payload followed by the rest |
| GssLayer.BaseLayer.SendRaw | src/common/ltsm_sockets.cpp:1188-1202 | frames sent plus buffer equal all bytes sent so far; which bytes go into a frame and which stay |
| GssLayer.BaseLayer.SendFlush | src/common/ltsm_sockets.cpp:1204-1207 | the buffer becomes one frame |
| GssLayer.BaseLayer.SendLayer | src/common/ltsm_sockets.cpp:1221-1231 | length and payload go to the layer below |
| GssLayer.BaseLayer.TakeFrame | src/common/ltsm_sockets.cpp:1209-1219 | one whole frame moves from the input to the receive buffer, or nothing while it is incomplete |
| GssLayer.BaseLayer.HasInput | src/common/ltsm_sockets.cpp:1158-1169 | its answer in each case, which frame it takes, and that nothing is lost |
| GssLayer.BaseLayer.HasData | src/common/ltsm_sockets.cpp:1171-1177 | the number of buffered bytes, after one more frame if input waits |
| GssLayer.BaseLayer.RecvRaw | src/common/ltsm_sockets.cpp:1179-1186 | exactly the next bytes asked for, or none while the whole frames are too few; no frame is taken that is not needed |
| NetworkStream.SendTo | src/common/ltsm_sockets.cpp:330-362 | the bytes the kernel took are the first bytes of the data, in order, all of them on success |
| NetworkStream.RecvFrom | src/common/ltsm_sockets.cpp:300-328 | the buffer holds the peer's bytes in order up to where the transfer got, and its old bytes after that |
| NetworkStream.Transfer | src/common/ltsm_sockets.cpp:300-362 | a transfer never moves more than asked, and everything exactly when it is done |
| NetworkStream.TransferEnds | src/common/ltsm_sockets.cpp:300-362 | the first answer after which there is no other try decides: it moves what is missing and the call is done, or (no bytes, or an error that is no interruption) the call throws with what was moved before |
| NetworkStream.EndOfStreamThrows | src/common/ltsm_sockets.cpp:314-318 | an answer of no bytes throws |
| NetworkStream.TransferCompletes | src/common/ltsm_sockets.cpp:300-362 | interruptions and short transfers do not matter: answers that move all bytes in total complete the transfer |
| Geometry.PointIterator.Next | src/common/ltsm_xcb_types.cpp:38-60 | operator++ in place, with 16-bit wrap |
| Geometry.StepAdvances | src/common/ltsm_xcb_types.cpp:38-60 | one step goes to the next point row by row, or off the grid at the end of the walk |
| Geometry.Walk | src/common/ltsm_xcb_types.cpp:38-60 | the points a whole walk visits, in order, including where 16-bit coordinates stop it early |
| Geometry.WalkCompleteIff | src/common/ltsm_xcb_types.cpp:38-60 | the walk reaches every point exactly for widths up to 32767 and heights up to 32768, or one row of 32768 |
| Geometry.WideRowsEndEarly | src/common/ltsm_xcb_types.cpp:38-60 | with two rows of 32768 points x wraps and the walk ends after the first row |
| Geometry.EachPointOnce | src/common/ltsm_xcb_types.cpp:38-60 | a complete walk visits each point exactly once |
| Geometry.IntersectsIff | src/common/ltsm_xcb_types.cpp:165-182 | regions intersect exactly when they share a point |
| Geometry.ClippedIsExact | src/common/ltsm_xcb_types.cpp:184-202 | the intersection covers exactly the common points and is not empty |
| Geometry.Intersection | src/common/ltsm_xcb_types.cpp:184-202 | the out-parameter is the common part, or untouched when there is none |
| Geometry.Damage.Join | src/common/ltsm_xcb_types.cpp:119-135 | join in place equals the function the results below are about |
| Geometry.Damage.JoinAll | src/common/ltsm_xcb_types.cpp:119-135 | joining a list of regions in place folds that function |
| Geometry.JoinIsLeastBoxIff | src/common/ltsm_xcb_types.cpp:119-135 | folding join over valid regions gives the least box containing them all exactly when that box's sides fit 16 bits |
| Geometry.WideJoinIsCut | src/common/ltsm_xcb_types.cpp:119-135 | two regions of width 40000, at 0 and 32767, join to a width of 7231, which is not their least box |
| Geometry.EmptyDoNotCount | src/common/ltsm_xcb_types.cpp:119-135 | empty regions in the list do not change what was joined |
| Geometry.NegativeIsForgotten | src/common/ltsm_xcb_types.cpp:119-135 | a region left of or above the origin is forgotten: what was joined with it is invalid, and the next region replaces it |
| Geometry.SmallEdgesAreNarrow | src/common/ltsm_xcb_types.cpp:119-135 | they do when right and bottom edges are at most 65535 |
| Geometry.JoinOrderIndependent | src/common/ltsm_xcb_types.cpp:119-135 | the result depends only on which regions were joined, not on order or repetition |
| Geometry.HullIsLeast | src/common/ltsm_xcb_types.cpp:119-135 | the box of extreme edges is the least one enclosing all regions |
| Tiling.DivideBlocks | src/common/ltsm_xcb_types.cpp:210-224 | the nested loops with 16-bit counters end and produce the blocks row by row |
| Tiling.DividesExactly | src/common/ltsm_xcb_types.cpp:210-224 | no block is empty or outside, every point lies in exactly one block, and their number is the product of the rounded-up quotients |
| Tiling.LeavesIff | src/common/ltsm_xcb_types.cpp:215-216 | a loop over a side ends and cuts each coordinate exactly once if and only if its 16-bit counter moves and does not wrap before the end; then it ends after the expected number of turns |
| Tiling.WrapCutsTwice | src/common/ltsm_xcb_types.cpp:215-216 | after a wrap the loop goes on and cuts the beginning of the side again, whenever it ends |
| Tiling.WrapAt65535 | src/common/ltsm_xcb_types.cpp:215-216 | a side of 65535 in blocks of 40000: the counter goes from 40000 to 14464 |
| Tiling.SmallSideReaches | src/common/ltsm_xcb_types.cpp:210-216 | it does not wrap for sides up to 32767 and positive block sides |
| Tiling.ZeroStepStays | src/common/ltsm_xcb_types.cpp:210-216 | with a zero block side the counter is 0 after any number of turns, so the loop does not end |
| Tiling.DivideCounts | src/common/ltsm_xcb_types.cpp:204-208 | counts whose loops end give the blocks of the asked quotients |
| Tiling.CountsReach | src/common/ltsm_xcb_types.cpp:204-208 | for sides up to 32767 the loops end for all positive counts |
| Tiling.CountsGrid | src/common/ltsm_xcb_types.cpp:204-208 | divideCounts tiles the region exactly, in at least the rows and columns asked for, if it has as many points, and exactly those when they divide its sides |
| Tiling.CountsArePositive | src/common/ltsm_xcb_types.cpp:204-208 | positive counts never ask for an empty block, nor for one larger than a non-empty region |
| Tiling.RowsTileExactly | src/common/ltsm_xcb_types.cpp:210-224 | the same exactness for any positive block size the loops use |
| PixelFormats.ConversionRoundTrip | src/common/ltsm_framebuffer.cpp:127-163 | converting to a format that is nowhere narrower and back is the identity on pixels inside the first format's masks, through the shortcuts and the general path |
| PixelFormats.RoundTripIff | src/common/ltsm_framebuffer.cpp:127-163 | for regular formats without alpha in the first, it is the identity on all such pixels exactly when no colour channel becomes narrower |
| PixelFormats.NarrowLoses | src/common/ltsm_framebuffer.cpp:127-163 | a channel that becomes narrower loses a given pixel |
| PixelFormats.WidenNarrow | src/common/ltsm_framebuffer.cpp:127-131 | widening a channel and narrowing it again is the identity |
| PixelFormats.GeneralRoundTrip | src/common/ltsm_framebuffer.cpp:150-162 | the general path restores the pixel |
| PixelFormats.AlphaRoundTrip | src/common/ltsm_framebuffer.cpp:134-148 | so do the shortcuts that add and remove alpha |
| PixelFormats.ProductIsInt | src/common/ltsm_framebuffer.cpp:127-131 | for channel maxima of the form 2^k - 1 that differ, the signed product of convertMax stays below 2^31 |
| PixelFormats.ProductOverflows | src/common/ltsm_framebuffer.cpp:127-131 | for a maximum with a gap, 65534, it can exceed 2^31 |
| PixelFormats.GetPacked | src/common/ltsm_framebuffer.cpp:158-162 | a channel of or-ed shifted values is the value that was put there |
| PixelColours.ColoursAreScaled | src/common/ltsm_framebuffer.cpp:127-163 | for all regular formats and every pixel each of red, green and blue keeps its share of its channel, rounded down, at its place in the new format, whichever path is taken |
| PixelColours.AlphaIs | src/common/ltsm_framebuffer.cpp:134-153 | alpha is full where an otherwise equal format gains it, and scaled everywhere else, so 0 when there was none |
| PixelColours.ConvertedWithin | src/common/ltsm_framebuffer.cpp:127-163 | no bit outside the new format's masks is set |
| PixelColours.ConversionIff | src/common/ltsm_framebuffer.cpp:127-163 | these laws have one solution, and the conversion is it |
| PixelColours.CutKeepsColours | src/common/ltsm_framebuffer.cpp:271-328 | cutting a pixel to its bytes keeps the colours that lie in them |
| ShownColours.SetPixelColours | src/common/ltsm_framebuffer.cpp:330-333 | the point shows the colours of the pixel, in the framebuffer's format |
| ShownColours.FillColours | src/common/ltsm_framebuffer.cpp:335-359 | so does every point of the filled region, and every other point is as before |
| ShownColours.BlitColours | src/common/ltsm_framebuffer.cpp:474-520 | point q of the common part shows the colours of point q of the source region |
| PixelLayout.PixelAfterDrawing | src/common/ltsm_framebuffer.cpp:271-328 | reading after drawing: a drawn point shows its colour modulo the depth, every other point what it showed before |
| PixelLayout.DrawnIsUnique | src/common/ltsm_framebuffer.cpp:335-359 | there is only one way to draw a picture on a buffer |
| PixelLayout.DrawnMore | src/common/ltsm_framebuffer.cpp:335-359 | drawing more regions of one picture, in any order, is drawing them together |
| PixelLayout.RowIsDrawn | src/common/ltsm_framebuffer.cpp:271-328 | a run of stored pixels draws exactly that part of one row, byte for byte |
| PixelLayout.OwnerOf | src/common/ltsm_framebuffer.cpp:833-842 | each byte of a pixel belongs to that pixel and to no other |
| FrameBuffers.FrameBuffer.constructor | src/common/ltsm_framebuffer.cpp:212-218 | a fresh zeroed buffer whose pitch is the larger of the width in bytes and the one asked for |
| FrameBuffers.FrameBuffer.SetPixelRow | src/common/ltsm_framebuffer.cpp:271-328 | at every known depth exactly the run, cut at the right border, is drawn and no other byte changes; an unknown depth throws and changes nothing |
| FrameBuffers.FrameBuffer.SetPixel | src/common/ltsm_framebuffer.cpp:330-333 | one converted pixel is drawn, no other byte changes |
| FrameBuffers.FrameBuffer.FillPixel | src/common/ltsm_framebuffer.cpp:335-359 | the common part gets the colour, whether rows are drawn in order or as jobs in any order, and no other byte changes; at an unknown depth nothing is drawn, which the sequential form throws and the job form does not report |
| FrameBuffers.JobsThreshold | src/common/ltsm_framebuffer.cpp:343-343 | the job form needs three cores and more than 1024 points |
| FrameBuffers.FillFormsAgreeIff | src/common/ltsm_framebuffer.cpp:341-358 | both forms leave the same bytes, and end alike exactly when the depth is known or nothing is to be drawn |
| FrameBuffers.FifteenBitsFill | src/common/ltsm_parallels_jobs.h:46-77 | filling 100 by 100 points of 15 bits: one core throws, eight return normally, and nothing is drawn |
| FrameBuffers.FrameBuffer.Pixel | src/common/ltsm_framebuffer.cpp:466-472 | the stored pixel, or an exception at an unknown depth |
| FrameBuffers.StoredIsImage | src/common/ltsm_framebuffer.cpp:281-321 | the four ways of storing a pixel all store its low bytes, lowest first |
| FrameBuffers.RawPixelIsLoad | src/common/ltsm_framebuffer.cpp:426-464 | the four ways of reading a pixel all read those bytes back, and any other depth throws |
| FrameBuffers.FillShows | src/common/ltsm_framebuffer.cpp:335-359 | after a fill every point of the region shows the pixel modulo 2^bpp and every other point is as before |
| FrameBuffers.PaddingStays | src/common/ltsm_framebuffer.cpp:833-846 | bytes between the end of a row and its pitch never change |
| Blits.BlitRegion | src/common/ltsm_framebuffer.cpp:474-520 | all forms (per pixel, row copy, tiles as jobs, rows as jobs) draw the same picture in the clipped region and change no other byte; when a conversion meets an unknown depth nothing is drawn, which the sequential form throws and the job form does not report |
| Blits.BlitFormsAgreeIff | src/common/ltsm_framebuffer.cpp:488-520 | both forms leave the same bytes, and end alike exactly when the formats are equal, the depths known or nothing is to be drawn |
| Blits.FifteenBitsBlit | src/common/ltsm_parallels_jobs.h:46-77 | a blit of 100 by 100 points into 15 bits: one core throws, eight return normally, and nothing is drawn |
| Blits.BlitShows | src/common/ltsm_framebuffer.cpp:474-520 | point dst.topLeft + q shows the converted source pixel reg.topLeft + q, for every q of the clipped size |
| Blits.BlitPixels | src/common/ltsm_framebuffer.cpp:511-514 | the sequential loop over PointIterator draws the picture, or throws at the first point when a depth is unknown |
| Blits.BlitTiles | src/common/ltsm_framebuffer.cpp:493-501 | tile jobs that proceed pixel by pixel in any interleaving draw the same picture; jobs that throw draw nothing, and nobody learns of it |
| Blits.BlitRows | src/common/ltsm_framebuffer.cpp:515-518 | row copies in order draw it when the formats are equal |
| Blits.BlitRowJobs | src/common/ltsm_framebuffer.cpp:503-505 | and so they do as jobs in any order |
| Blits.RowCopy | src/common/ltsm_framebuffer.cpp:481-485 | copying the bytes of one row shows the source's pixels |
| Blits.ConversionOfEqualFormats | src/common/ltsm_framebuffer.cpp:134-137 | conversion between equal formats changes nothing, so row copies and converted pixels agree |
| Blits.SourceAlignedIff | src/common/ltsm_framebuffer.cpp:474-483 | for every source each point of the target inside the framebuffer shows the source pixel that belongs there, if and only if the target's corner is not clipped |
| Blits.UnclippedIsAligned | src/common/ltsm_framebuffer.cpp:474-483 | it does for every source when the corner is not clipped |
| Blits.ClippedIsDisplaced | src/common/ltsm_framebuffer.cpp:474-483 | for a clipped corner there is a source for which it does not |
| Blits.DisplacedPixel | src/common/ltsm_framebuffer.cpp:474-483 | the pixels 7 and 9 blitted one point to the left: the point that remains shows 7 instead of 9 |
| Blits.CopyRegion | src/common/ltsm_framebuffer.cpp:264-269 | a fresh framebuffer of the region's size and format with exactly its pixels |
| Blits.JobsDone | src/common/ltsm_framebuffer.cpp:493-501 | when all tile jobs are done exactly the tiled region has been drawn |
| PixelScans.ToRLE | src/common/ltsm_framebuffer.cpp:522-564 | both forms expand to the row-major pixels, with positive lengths that sum to width times height; the sequential one is the maximal-run encoding |
| PixelScans.EncodeIsFaithful | src/common/ltsm_framebuffer.cpp:523-545 | the sequential encoding expands to its pixels, with positive and maximal runs |
| PixelScans.MaximalIsUnique | src/common/ltsm_framebuffer.cpp:523-545 | there is only one encoding with maximal runs |
| PixelScans.BandStep | src/common/ltsm_framebuffer.cpp:548-560 | the pixels of the bands, one after the other, are those of the region |
| PixelScans.RegionRuns | src/common/ltsm_framebuffer.cpp:523-545 | the nested loops compute the encoding, or throw at an unknown depth |
| PixelScans.BandRuns | src/common/ltsm_framebuffer.cpp:547-561 | the spliced lists of the bands expand to the region's pixels |
| PixelScans.BandLoopEndsIff | src/common/ltsm_framebuffer.cpp:548-552 | the loop that cuts a non-empty region into bands ends if and only if the region has at least four rows; below, its counter is 0 after any number of turns and the scan never returns |
| PixelScans.TwoRowsNeverEnd | src/common/ltsm_framebuffer.cpp:548-552 | 600 by 2 points on eight cores: the region is cut into bands, and the cutting never ends |
| PixelScans.PixelMapPalette | src/common/ltsm_framebuffer.cpp:612-663 | in both forms a numbering from 0 up of exactly the distinct pixels, whatever order the map keeps |
| PixelScans.PaletteIsBijection | src/common/ltsm_framebuffer.cpp:612-663 | indices and distinct pixels correspond one to one, and there are as many of each |
| PixelScans.PixelMapWeight | src/common/ltsm_framebuffer.cpp:665-712 | in both forms the multiset of the pixels; all weights sum to width times height |
| PixelScans.MergeWeights | src/common/ltsm_framebuffer.cpp:696-703 | merging the maps of two parts counts both |
| PixelScans.HistogramIsUnique | src/common/ltsm_framebuffer.cpp:665-712 | so the merged map of the bands equals the sequential map |
| PixelScans.WeightIsSize | src/common/ltsm_framebuffer.cpp:665-712 | the weights of a histogram sum to the number of pixels |
| JsonDecoder.DocumentRestored | src/common/ltsm_json_wrapper.cpp:911-1031 | decoding the tokens of a document, wherever they stand and whatever follows, gives back its value and skips exactly its tokens, for documents whose strings survive escaping |
| JsonDecoder.DecodeInverts | src/common/ltsm_json_wrapper.cpp:911-1031 | the same for any escaping and unescaping, up to what they do to strings |
| JsonDecoder.DecodeInvertsItems | src/common/ltsm_json_wrapper.cpp:911-928 | the array loop inverts flattening |
| JsonDecoder.DecodeInvertsMembers | src/common/ltsm_json_wrapper.cpp:937-970 | so does the object loop |
| JsonDecoder.ToObjectInverts | src/common/ltsm_json_wrapper.cpp:1033-1043 | toObject restores an object document, whatever tokens follow |
| JsonDecoder.ToObjectThrowsIff | src/common/ltsm_json_wrapper.cpp:1033-1037 | it throws exactly when the document is no object |
| JsonDecoder.ItemsRunOut | src/common/ltsm_json_wrapper.cpp:911-928 | on any token list the array loop reads at most the announced values, fewer only when tokens run out, and takes no token that is not there |
| JsonDecoder.MembersRunOut | src/common/ltsm_json_wrapper.cpp:937-970 | so does the object loop |
| JsonDecoder.PushValuesToArray | src/common/ltsm_json_wrapper.cpp:911-928 | the loop returns the items and the skip count of the recursive decoder, also when tokens run out |
| JsonDecoder.PushValuesToObject | src/common/ltsm_json_wrapper.cpp:937-970 | the same for objects, a repeated key being overwritten |
| JsonDecoder.GetValueFromIter | src/common/ltsm_json_wrapper.cpp:1009-1031 | the dispatch returns the decoder's value and count |
| JsonDecoder.LastOccurrenceWins | src/common/ltsm_json_wrapper.cpp:957-963 | of equal keys the last one counts, and no other key appears |
| JsonDecoder.DistinctKeysKept | src/common/ltsm_json_wrapper.cpp:957-963 | without repeated keys every key keeps its own value |
| Escaping.RoundTripIff | src/common/ltsm_tools.cpp:737-860 | unescaping an escaped string restores it exactly when it has no zero character or is the single zero character |
| Escaping.ZeroIsLost | src/common/ltsm_tools.cpp:737-860 | the string of a zero and an A comes back as A |
| Escaping.Unescaped | src/common/ltsm_tools.cpp:794-860 | the mark-and-erase loop over the array equals the left-to-right decoder on every input |
| Escaping.Escaped | src/common/ltsm_tools.cpp:737-792 | the loop writes the escaped characters, between quotes when asked |
| Escaping.DecodeEscape | src/common/ltsm_tools.cpp:737-860 | the decoder applied to an escaped string gives its nonzero characters |
| Escaping.Turn | src/common/ltsm_tools.cpp:803-856 | one turn of the marking loop keeps what will come out |
| EscapeSyntax.TablesAgree | src/common/ltsm_tools.cpp:745-854 | both switches follow the one table of the eight two-character escapes of section 7 of RFC 8259, and have no other cases |
| EscapeSyntax.QuotedStringIsRead | src/common/ltsm_tools.cpp:737-792 | a reader that skips the character after each backslash finds the end of a quoted string exactly at its closing mark, whatever the string holds and whatever follows, and what stands between unescapes to the string without zeros |
| EscapeSyntax.NoRawControls | src/common/ltsm_tools.cpp:754-780 | backspace, tab, newline, form feed and carriage return never stand in an escaped string |
| EscapeSyntax.EscapedCharacter | src/common/ltsm_tools.cpp:745-785 | a character with an escape is written as a backslash and its letter, any other as it is |
| EscapeSyntax.EscapeAppend | src/common/ltsm_tools.cpp:745-785 | strings are escaped character by character |
| EscapeSyntax.UnescapingRules | src/common/ltsm_tools.cpp:803-860 | what becomes of an escape, an unknown escape, a plain character, a zero and a final backslash |
| EscapeSyntax.PlainStays | src/common/ltsm_tools.cpp:794-801 | a string without backslashes and zeros is left alone |
| Base64.RoundTrip | src/common/ltsm_tools.cpp:418-541 | decoding an encoded byte string gives it back; the empty one throws |
| Base64.EncodedShape | src/common/ltsm_tools.cpp:469-497 | four characters for every three bytes begun, and padding exactly where section 4 of RFC 4648 requires it |
| Base64.EncodedLetter | src/common/ltsm_tools.cpp:418-443 | every other character is a letter of the alphabet |
| Base64.OtherCharacters | src/common/ltsm_tools.cpp:445-467 | a letter decodes to its place in the alphabet, any other character to 0 |
| Base64.DecodeThrowsIff | src/common/ltsm_tools.cpp:499-514 | an empty input or a length that is no multiple of four throws, and nothing else; the length of the result |
| Base64.Base64Encode | src/common/ltsm_tools.cpp:469-497 | the loop computes the encoding |
| Base64.Base64Decode | src/common/ltsm_tools.cpp:499-541 | the loop computes the decoding, and throws exactly on an empty string or a length that is no multiple of four |
| Base64.CharTables | src/common/ltsm_tools.cpp:418-467 | the two character tables are inverse on 0..63 |
| Base64.GroupRoundTrip | src/common/ltsm_tools.cpp:478-538 | a group of four characters decodes to the 24 bits it was made from |

## Left out

- Descriptors, poll, sockets, pipes, TLS, GSSAPI, LDAP, PKCS#11 and D-Bus: foreign calls; reads and writes are arbitrary steps.
- Ownership and closing of descriptors; `ConnectorFD_RW` gives one descriptor to two owners.
- Handshake.HandshakeSafety: the server's factories succeed, and nothing is closed or destroyed; with those the receiver can throw by design (ChannelLaws says what each handler does then). `sendLtsmChannelData` (pure virtual) is taken to deliver in order.
- Handshake.Step: every url type that is asked for is known to the factories; their own resources are not modelled.
- AsyncMutex.MutualExclusion: nothing is claimed after `cancel` but what MutexCancel says; that `cancel_one` wakes the oldest waiter is what asio documents.
- ChannelIds.IdsDistinctAndValid: the id search and the insertion that follows are one step, although the code takes its lock twice; two threads that create channels at the same time are not modelled, here and in Handshake.
- EndToEnd.AcceptedIsRead: zlib is a pair of functions of which only "inflate undoes deflate" is used; transfer counters are unbounded; the connectors' own threads may stop, while the endpoints never destroy the channel; a receiver that refuses a frame goes on, although its exception would end the session.
- MutexProgress.NoStarvation: assumes weak fairness for the steps of async_lock, unlock and the timer, and that every holder unlocks.
- ChannelStreams.Remote2Local.WriteData: the answers of the system calls come as a finite list, so a call that is retried for ever is a call that has not returned yet, for every length of the list.
- ChannelSystem.ChannelClient.DestroyChannel: the code holds the table's lock during the pause; what its connector's threads do meanwhile is the Stop step of ConnectorThreads.
- ChannelSystem.ChannelClient.SystemChannelConnected: what the factories do inside, and the accepted descriptor that is closed on a refusal, are a parameter and left out.
- NetworkStream.SendTo: the script of answers is finite; a loop still trying is pending.
- GssLayer.BaseLayer: the statistics counters, the null test for the layer below and the tokens that the security context sends through sendLayer itself are not modelled; a blocking receive is a call that answers None.
- ByteOrder.PutBE: big-endian machines are not modelled; integer widths are any number of bytes.
- StreamBuffers.StreamBuf: peek, data, copies and moves are left out; they would add easy members.
- PixelFormats.ConvertMax: the overflow of the signed product, which PixelFormats.ProductIsInt rules out for every regular format, is not modelled for others.
- PixelFormats: building a format from masks, `pixel(Color)` and `color(pixel)` are left out.
- FrameBuffers.FrameBuffer: only buffers that own their memory, start at (0, 0) and have sides up to 32767; views into another framebuffer mix global and local coordinates in the code. Depths of less than 8 or more than 39 bits are not modelled, nor is alignment of the buffer.
- FrameBuffers.FrameBuffer.FillPixel: row jobs run one after the other in any order, and so do row copies; they write disjoint bytes.
- Blits.BlitRegion: the two framebuffers have distinct buffers and the clipped source lies inside its framebuffer, as the assertions in `pixel` demand.
- PixelScans.ToRLE: `colourMap` and the sampling test of `allOfPixel` are left out; the latter ignores the offset of its region.
- JsonDecoder.GetValueFromIter: primitives stay text, because number parsing through stoi and stod is a library matter; the jsmn tokeniser is not part of this model, and a token carries the text it spans.
- JsonDecoder: `JsonObject::join` is left out.
- Text and glyph rendering, windows, client options, logging, configuration, timers and name tables: input, output and easy tables.
