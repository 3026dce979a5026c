# Verified model of Twilight's stateful core

Twilight is a remote desktop: a server captures the screen, encodes it and streams it to a client, after both
have paired over a TLS connection. This project models the parts of both programs that carry real state,
concurrency or arithmetic, in Dafny 4.11, and proves what they are for. `dafny verify dfyconfig.toml` checks it.

Code that changes objects in place is a class whose methods are proved against functions on values; the laws of
the program are lemmas about those functions, over every run. Code with threads is a step relation over program
counters, interleaved at every lock operation, flag read and wait. What a thread does under a lock after its last
flag read, up to the unlock, is one step.

## The parts

**Decoder and encoder pipelines.** `PacketQueue` is the backlog policy: a second key frame replaces the backlog
and takes over its cursor data. `MetadataMatch` is the search that gives each picture a codec returns its own
metadata back. `DecoderThreads` puts pusher, worker, reader and `stop()` together, with a codec that may answer in
any order and condition variables that may wake by themselves; `RendererCursors` says which cursor then is on screen,
and `PictureLifetimes` how long its picture stays valid.
`EncoderThreads` does the same for the encoder, whose `stop()` takes no lock. `CircularDeques`, `DecoderFFmpegs`,
`EncoderFFmpegs`, `EncoderMFs` and `StreamViewers` are the objects whose critical sections those threads execute.

**Texture memory.** `TextureModel` and `TextureRuns` are the allocator on values and its runs; `TextureArenas` is
the same allocator as objects, where erasing from a vector and growing it swap block contents between cells.

**Pairing.** `Connections` is the server's receive loop and handlers, `StreamClients` the client's script,
`PinCode` the PIN as printed by one and parsed by the other, `CertHashes` (with `Base64` and `StringSplits`) the
stored certificate hashes. `AuthHistory` says how a connection can have become authorised, `Disclosure` what it says
before; `PairingRuns` composes client, server and user. `CommitmentChecks` compares the client with the one the protocol
describes, and `ServerAnswers` says what the server answers to each request.

**Rings, clocks and formats.** `RingBuffers` and `AudioPaths`, `MinMaxRings`, `PowersOfTwo`, `NetworkClocks`,
`Framing`, `CursorShapes`, `AudioRechunks`.

## Where the code and what is said about it differ

- `CircularDeque::push_front` steps forward instead of back. It prepends exactly if the deque is empty or has at
  most two slots (`PushFrontPrependsExactly`). Nothing in the decoder calls it.
- `MinMaxTrackingRingBuffer::pop` of the last element v leaves v tracked with counts of one. What is tracked becomes
  true again, as numbers are pushed that fit, exactly when one of them is below v and one above
  (`DrainedRecoversExactly`).
- `DecoderFFmpeg::readSoftware` can still deliver a frame after `stop()` has lowered the flag: exactly if the reader
  stands between its check of the flag and its taking the frame (`DeliversAfterStopExactly`, with a run in
  `StopCanBeOvertaken`). It is one frame at most, and none once `stop()` has returned.
- A cursor shape rides on its packet's metadata. With a codec in order, a new shape is missed exactly if the codec
  withholds the newest packet that carries one (`InOrderShowsNewestExactly`, with a run in `WithheldShapeIsMissed`).
- `EncoderFFmpeg::stop` notifies without a lock. A worker or a pusher between its flag check and its wait then sleeps
  for good, and so does a reader unless the worker queues one more packet; there is no other way
  (`StrandedExactlyWhenCaught`, with a run for each: `StopCanStrandTheWorker`, `StopCanStrandThePusher`,
  `StopCanStrandTheReader`).
- `NetworkClock::monotonicHint` reads the clock twice. Local time steps back exactly when the hinted time lies
  strictly between the two readings (`HintStepsBackExactly`).
- The monochrome branch of `parseCursor_` writes every pixel exactly if the width is a multiple of eight or there is
  no row (`MonochromeFillsTheImageExactly`).
- The PIN prompt says that a bare Enter cancels. It is read as the number 0, so it cancels exactly if the true PIN is
  not 0 (`BlankLineCancelsUnlessPinIsZero`).
- A stamp left over from an earlier run of a codec shadows the same stamp of the next run (`LeftoversShadow`).
- The protocol description asks the client to check the server's nonce against its commitment; the client receives
  the commitment and never reads it. It behaves as described exactly if the nonce is the one promised
  (`ClientConformsExactly`); any other is refused exactly if no PIN can be computed from it (`MismatchRefusedExactly`),
  and otherwise trusted (`MismatchIsTrusted`, `CommitmentNotRead`). So the server's commitment does not fix the PIN the
  client shows (`PinIsNotFixed`, against `CheckedPinIsFixed` and `ServerPinIsFixed`).
- Ending a stream is not gated as starting one is: the calls of an unauthorised connection are exactly one end for each
  request to stop (`StrangersOnlyEnd`, with one in `StrangerEndsTheStream`).
- The PIN is read modulo 2^32, so longer lines than the PIN's own are accepted too (`LineAdmitsExactly`,
  `LongLineWraps`; the addition that wraps is undefined for signed integers in C++).
- The decoder keeps a reference so that the picture read is not freed. It is, before the next read, exactly if the
  worker ends first (`PictureIsValidExactly`, with a run in `PictureCanBeFreed`).
- One input stream with a limit on all its bytes serves a whole connection (2^31 - 1 by default in Protocol Buffers'
  `CodedInputStream`); what lies behind the limit does not arrive (`PacketsArriveExactly`).
- `constexpr_nextPowerOfTwo` yields 0 for 0 and for values above the largest power of two of the word
  (`NextPowerOfTwoIsLeast`).

## Model

| member | source | states |
|---|---|---|
| `PacketQueue.HandedOverIsDecodable` | src/client/platform/software/DecoderFFmpeg.cpp:113-140 | In every run of pushes and pops, the packets handed over are an in-order selection of the stream, and every one that is no key frame directly follows its predecessor in the stream. |
| `PacketQueue.BacklogIsDroppedExactly` | src/client/platform/software/DecoderFFmpeg.cpp:115-138 | In every run a push replaces what waits if and only if the frame is a key frame and another one waits; otherwise it appends. |
| `PacketQueue.SkippedHoldsKey` | src/client/platform/software/DecoderFFmpeg.cpp:115-138 | Over every run, whatever was skipped before a packet was skipped for a key frame and holds a key frame of its own. |
| `PacketQueue.KeyFlagIsExact` | src/client/platform/software/DecoderFFmpeg.cpp:115-136 | In every run the key flag is true exactly when a key frame waits in the queue, and at most one does. |
| `PacketQueue.CursorOverRun` | src/client/platform/software/DecoderFFmpeg.cpp:120-134 | In every run, the last cursor position and shape over delivered plus queued packets equal the last over everything pushed. |
| `PacketQueue.CursorNeverLost` | src/client/platform/software/DecoderFFmpeg.cpp:120-134 | The same after any number of delivered packets: they show the newest cursor data of the stream up to the last of them. |
| `PacketQueue.ExtendFaithful` | src/client/platform/software/DecoderFFmpeg.cpp:115-138 | Replacing a backlog by a key frame, or appending a frame, keeps the invariant that each surviving packet carries the newest cursor data of the stretch it stands for. |
| `PacketQueue.HistoryIsWhatHappened` | src/client/platform/software/DecoderFFmpeg.cpp:138-189 | The history the other lemmas speak of holds exactly the frames pushed, in order, and one packet per pop. |
| `MetadataMatch.FindAndErase` | src/client/platform/software/DecoderFFmpeg.cpp:157-163 | The search loop finds and erases the first entry with the stamp, or reports that there is none. |
| `MetadataMatch.PendingAfterReturn` | src/server/platform/software/EncoderFFmpeg.cpp:173-190 | While the codec owes the k-th stamp, looking it up yields an entry with that stamp and every field of the k-th input's own metadata, and leaves exactly the pending list without k, whatever order the codec answers in. |
| `MetadataMatch.LeftoversShadow` | src/server/platform/windows/EncoderMF.cpp:271-282 | With entries left over from an earlier run, an output gets its own metadata if and only if no leftover bears its stamp or the first that does says the same. |
| `MetadataMatch.SampleTimesDistinct` | src/server/platform/windows/EncoderMF.cpp:314-319 | The sample times floor(k * 10^7 / 60) never repeat. |
| `MetadataMatch.SampleTimesAreSixtiethsOfASecond` | src/server/platform/windows/EncoderMF.cpp:314-319 | Sixty frames make ten million units from any frame on, and no sample time is a unit early or late. |
| `DecoderThreads.NoLostWakeup` | src/client/platform/software/DecoderFFmpeg.cpp:43-61 | In every reachable state a thread asleep and not signalled has nothing to do: the reader only on an empty queue, the worker only on a full or an empty one, never both on the frame queue, nobody after stop() has returned; no deque operation hits a forbidden state and every stamp finds its metadata. |
| `DecoderThreads.RestIsLegitimate` | src/client/platform/software/DecoderFFmpeg.cpp:104-111 | Deadlock freedom: the threads come to rest only with both locks free and each of them finished or waiting for something that is not there; after stop() everything has ended. |
| `DecoderThreads.RestShowsEverything` | src/client/platform/software/DecoderFFmpeg.cpp:142-211 | At rest with a reader waiting, every packet not skipped has gone to the codec and every picture it returned has been delivered, in its order. |
| `DecoderThreads.StopEndsThreads` | src/client/platform/software/DecoderFFmpeg.cpp:104-218 | Once the flag is down the only frame still delivered is the one a reader was about to take, having checked the flag before, and none once stop() has returned; the worker ends within eight of its own steps and each reader call within three. |
| `DecoderThreads.DeliversAfterStopExactly` | src/client/platform/software/DecoderFFmpeg.cpp:50-58 | A frame can be delivered after stop() has lowered the flag if and only if a reader stands between its check of the flag and its taking the frame. |
| `RendererCursors.StopCanBeOvertaken` | src/client/platform/software/DecoderFFmpeg.cpp:50-58 | A reachable state from which that happens. |
| `DecoderThreads.DeliveredFramesAreOwn` | src/client/platform/software/DecoderFFmpeg.cpp:150-211 | In every reachable state, delivered frames follow the codec's order, none twice, each with the cursor position, cursor shape, times and key frame mark of the very packet whose stamp it bears, and what the codec got survives from the pushed stream. |
| `DecoderThreads.DeliveredIsAsPushed` | src/client/platform/software/DecoderFFmpeg.cpp:113-211 | In every reachable state, each delivered frame has the times and key frame mark of the frame pushed, its cursor position if it had one, and comes from the stamp under which the codec got that frame's bytes. |
| `DecoderThreads.FrameIsTheReply` | src/client/platform/software/DecoderFFmpeg.cpp:150-169 | The picture and the decoding time of a frame are those of the codec's reply. |
| `RendererCursors.ShownIsNewestExactly` | src/client/platform/software/DecoderFFmpeg.cpp:155-166 | In whatever order the codec answers, the shape on screen comes from the newest packet with one, up to the frame on screen, if and only if the codec returned that packet and nothing with a shape after it. |
| `RendererCursors.InOrderShowsNewestExactly` | src/client/platform/software/DecoderFFmpeg.cpp:155-166 | With a codec that keeps its order, with or without gaps, that is so if and only if the codec has not withheld the newest packet with a shape. |
| `RendererCursors.RendererCursorIsCurrent` | src/client/platform/software/DecoderFFmpeg.cpp:115-138 | When the shape on screen comes from the newest packet with one, it is the newest shape in the stream up to the frame on screen, whatever was skipped. |
| `RendererCursors.ShownPositionIsTheFrames` | src/client/platform/software/DecoderFFmpeg.cpp:155-166 | Whatever the codec's order and whatever was skipped, the cursor position on screen is that of the frame on screen, and the newest in the stream up to it. |
| `RendererCursors.WithheldShapeIsMissed` | src/client/platform/software/DecoderFFmpeg.cpp:155-166 | A reachable state, with a codec in order that owes the packet with the shape and returned the next, in which the new shape is not on screen. |
| `CircularDeques.CircularDeque.PushBack` | src/common/CircularDeque.h:71-83 | Appends to the bounded sequence the circular array stands for; a full deque ends the program. |
| `CircularDeques.CircularDeque.PopFront` | src/common/CircularDeque.h:40-46 | Removes the first element of that sequence; an empty deque ends the program. |
| `CircularDeques.CircularDeque.PopBack` | src/common/CircularDeque.h:48-53 | Removes the last element of that sequence. |
| `CircularDeques.CircularDeque.Front` | src/common/CircularDeque.h:16-20 | Is the first element of that sequence. |
| `CircularDeques.CircularDeque.Back` | src/common/CircularDeque.h:22-26 | Is the last element of that sequence. |
| `CircularDeques.CircularDeque.Clear` | src/common/CircularDeque.h:85-89 | Leaves the empty sequence. |
| `CircularDeques.CircularDeque.PushFront` | src/common/CircularDeque.h:55-69 | Prepends if the deque is empty or has at most two slots; otherwise leaves the window the forward step exposes. |
| `CircularDeques.PushFrontPrependsExactly` | src/common/CircularDeque.h:55-69 | push_front prepends for every content if and only if the deque is empty or has at most two slots. |
| `DecoderFFmpegs.DecoderFFmpeg.PushData` | src/client/platform/software/DecoderFFmpeg.cpp:113-140 | The loop over the backlog and the two takeovers do to the queue what the policy of `PacketQueue` says; without a key frame waiting, or for any other frame, nothing is dropped. |
| `DecoderFFmpegs.DecoderFFmpeg.TakePacket` | src/client/platform/software/DecoderFFmpeg.cpp:188-191 | Takes the oldest packet; the key flag falls with a key frame. |
| `DecoderFFmpegs.DecoderFFmpeg.SavePacket` | src/client/platform/software/DecoderFFmpeg.cpp:197-206 | Keeps the saved list equal to the packets given to the codec minus those returned. |
| `DecoderFFmpegs.DecoderFFmpeg.MatchPicture` | src/client/platform/software/DecoderFFmpeg.cpp:155-169 | A picture whose stamp the codec owes gets every field of its own packet's metadata and the time it was decoded, in whatever order; any other stamp, and only such, ends the program. |
| `DecoderFFmpegs.DecoderFFmpeg.QueueFrame` | src/client/platform/software/DecoderFFmpeg.cpp:175 | Appends to the frame queue of four. |
| `DecoderFFmpegs.DecoderFFmpeg.ReadFrame` | src/client/platform/software/DecoderFFmpeg.cpp:52-57 | Takes the oldest frame out of the frame queue and keeps its picture in place of the one before. |
| `DecoderFFmpegs.DecoderFFmpeg.DropFrames` | src/client/platform/software/DecoderFFmpeg.cpp:213-217 | No frame waits afterwards and no picture is kept. |
| `PictureLifetimes.LastPictureIsHeld` | src/client/platform/software/DecoderFFmpeg.cpp:52-217 | In every run of the threads the picture kept is the one handed over last, and none once the worker has ended. |
| `PictureLifetimes.PictureIsValidExactly` | src/client/platform/software/DecoderFFmpeg.cpp:52-57 | Over every continuation of every run, a picture handed over is still valid if and only if no further one has been handed over and the worker has not ended. |
| `PictureLifetimes.PictureCanBeFreed` | src/client/platform/software/DecoderFFmpeg.cpp:213-217 | A run in which the codec ends and the worker frees the picture of a reader that has asked for no other. |
| `StreamViewers.StreamViewerD3D.ProcessDesktopFrame` | src/client/platform/windows/StreamViewerD3D.cpp:51-80 | A frame takes the pending cursor shape with it into the decoder's queue and leaves the mailbox empty. |
| `StreamViewers.StreamViewerD3D.ProcessCursorShape` | src/client/platform/windows/StreamViewerD3D.cpp:82-105 | A shape replaces whatever is pending. |
| `StreamViewers.NoShapeIsMislaid` | src/client/platform/windows/StreamViewerD3D.cpp:77-104 | For every interleaving, the shapes pushed and the one pending together hold the newest shape that arrived. |
| `StreamViewers.ShapesRideOnce` | src/client/platform/windows/StreamViewerD3D.cpp:77-104 | A frame brings a shape if and only if one arrived since the frame before it, and then the last of those; no shape rides twice. |
| `StreamViewers.ScreenCursorIsNewest` | src/client/platform/windows/StreamViewerD3D.cpp:51-105 | End to end, for every interleaving of packets, every run of the decoder's threads and a codec that keeps its order and has not withheld the newest packet with a shape (any other it may): the cursor on screen is the newest shape that had arrived when the frame on screen arrived. |
| `StreamViewers.FrameIsAsArrived` | src/client/platform/windows/StreamViewerD3D.cpp:51-80 | End to end, for every interleaving of packets, every run of the decoder's threads and any codec: each frame the renderer gets has the cursor position (-1, -1 if hidden), key frame mark, times and bytes of its own packet. |
| `EncoderThreads.EncoderLosesNothing` | src/server/platform/software/EncoderFFmpeg.cpp:100-120 | In every reachable state frames have reached the codec exactly in the order accepted and packets the reader exactly in the order made; the one-slot mailbox is never overwritten and every stamp finds its metadata. |
| `EncoderThreads.ReadPacketsAreOwn` | src/server/platform/software/EncoderFFmpeg.cpp:173-190 | In every reachable state the i-th packet read holds the bytes, key frame mark and encoding time of the codec's i-th answer and every other field of the very frame accepted whose stamp came with it, in whatever order, and no frame makes two packets. |
| `EncoderThreads.RestShowsEverything` | src/server/platform/software/EncoderFFmpeg.cpp:100-252 | At rest with a reader waiting, every frame accepted has gone to the codec and every packet made has been read. |
| `EncoderThreads.FrameGoesThrough` | src/server/platform/software/EncoderFFmpeg.cpp:100-252 | For every frame and every answer of the codec, a run in which the frame is accepted and its packet read. |
| `EncoderThreads.WorkerEndsExactly` | src/server/platform/software/EncoderFFmpeg.cpp:167-256 | While the encoder runs, the worker ends if and only if the codec is at its end or refuses a frame. |
| `EncoderThreads.StrandedExactlyWhenCaught` | src/server/platform/software/EncoderFFmpeg.cpp:92-98 | Without spurious wakeups, worker and pusher are left asleep after stop() if and only if it notified them between their flag check and their wait; the reader if and only if that happened to it and the worker queued no packet afterwards. |
| `EncoderThreads.StopCanStrandTheWorker` | src/server/platform/software/EncoderFFmpeg.cpp:209-212 | A state reachable without spurious wakeups in which stop() has returned and the worker is asleep for good. |
| `EncoderThreads.StopCanStrandTheReader` | src/server/platform/software/EncoderFFmpeg.cpp:111-116 | The same for the reader. |
| `EncoderThreads.StopCanStrandThePusher` | src/server/platform/software/EncoderFFmpeg.cpp:100-105 | The same for the pusher, for every frame. |
| `EncoderFFmpegs.EncoderFFmpeg.SendFrame` | src/server/platform/software/EncoderFFmpeg.cpp:226-252 | Keeps the saved list equal to the frames sent minus those returned. |
| `EncoderFFmpegs.EncoderFFmpeg.ReceivePacket` | src/server/platform/software/EncoderFFmpeg.cpp:173-204 | The k-th frame's packet is queued with what the codec returned and every field of the k-th frame's own metadata, in whatever order the codec returns packets; the assertion cannot fire. |
| `EncoderFFmpegs.EncoderFFmpeg.EncodeNext` | src/server/platform/software/EncoderFFmpeg.cpp:205-252 | What waits in the mailbox, if the encoder runs, is the next frame given to the codec, and the mailbox is free. |
| `EncoderFFmpegs.EncoderFFmpeg.ReadData` | src/server/platform/software/EncoderFFmpeg.cpp:111-120 | Packets leave in the order they were made, each once. |
| `EncoderMFs.EncoderMF.PushFrame` | src/server/platform/windows/EncoderMF.cpp:293-324 | Accepts one frame per request for input and saves its metadata under a sample time of its own. |
| `EncoderMFs.EncoderMF.Handle` | src/server/platform/windows/EncoderMF.cpp:257-289 | An output the codec owes gets every field of its own frame's metadata and the codec's key frame mark; the assertion cannot fire. |
| `TextureModel.AllocTakesOneSlot` | src/common/platform/software/TextureAllocArena.cpp:97-116 | The slot handed out was free, is taken now, and no other slot changes. |
| `TextureModel.ReleaseReturnsOneSlot` | src/common/platform/software/TextureAllocArena.cpp:230-235 | Giving a slot back succeeds if and only if it is taken, and changes only that slot. |
| `TextureModel.GcKeepsTakenSlots` | src/common/platform/software/TextureAllocArena.cpp:153-168 | Collection gives up no slot that is taken and takes none. |
| `TextureRuns.RunsNeverAbort` | src/common/platform/software/TextureSoftware.cpp:28-94 | In every run of allocation, clone, move, swap, reference, destruction and collection no abort fires, each taken slot belongs to exactly one live texture, block ids are unique, and blocks number at most an eighth, rounded up, of the most slots owned at once. |
| `TextureRuns.AllocBoundsBlocks` | src/common/platform/software/TextureAllocArena.cpp:99-116 | A block is added only when every slot of every block has an owner among the live textures; so the blocks number at most an eighth, rounded up, of the slots owned at once. |
| `TextureRuns.LiveMemoryIsDisjoint` | src/common/platform/software/TextureAllocArena.cpp:137-143 | In every reachable state no byte belongs to two planes, neither of two textures nor of one. |
| `TextureRuns.PlanesLieInSlot` | src/common/platform/software/TextureAllocArena.cpp:121-143 | Every plane of an allocated texture lies inside the texture's slot. |
| `TextureRuns.NewTexturesAreLaidOut` | src/common/platform/software/TextureAllocArena.cpp:97-116 | A new texture, or a clone, owns a slot that was free and has the arena's format: size, line sizes, and each plane right behind the one before from the slot's first byte on, null from the first plane missing. |
| `TextureRuns.MovesMove` | src/common/platform/software/TextureSoftware.cpp:39-64 | Move construction takes the texture over and leaves an empty one, move assignment exchanges the two, and neither touches the arena. |
| `TextureRuns.PlainOpsAreExact` | src/common/platform/software/TextureSoftware.cpp:28-94 | A default texture is empty and owns nothing, a reference is the view it was made of, destruction takes away its own texture only and collection none. |
| `TextureRuns.OthersStayAsTheyAre` | src/common/platform/software/TextureSoftware.cpp:28-94 | No operation changes a texture it is not about. |
| `TextureRuns.CloneIsRefusedExactly` | src/common/platform/software/TextureSoftware.cpp:82-94 | A clone is refused if and only if the source owns no slot and differs from the arena in size or pixel format. |
| `TextureArenas.Block.MoveAssign` | src/common/platform/software/TextureAllocArena.cpp:193-208 | Exchanges the contents of two blocks. |
| `TextureArenas.Block.MoveFrom` | src/common/platform/software/TextureAllocArena.cpp:183-191 | Takes over a block and leaves one that owns no memory. |
| `TextureArenas.Block.Destruct` | src/common/platform/software/TextureAllocArena.cpp:210-220 | Aborts if and only if the block owns memory and a slot of it is taken. |
| `TextureArenas.Block.AllocSlot` | src/common/platform/software/TextureAllocArena.cpp:222-228 | Takes the first available slot; if there is none, changes nothing. |
| `TextureArenas.Block.FreeSlot` | src/common/platform/software/TextureAllocArena.cpp:230-235 | Returns a taken slot; aborts if and only if the slot is out of range or not taken. |
| `TextureArenas.Block.CheckAllEmpty` | src/common/platform/software/TextureAllocArena.cpp:237-242 | True if and only if every slot is available. |
| `TextureArenas.TextureAllocArena.Reallocate` | src/common/platform/software/TextureAllocArena.cpp:183-191 | Growing the vector by moving keeps every block's contents and order, and no emptied cell aborts. |
| `TextureArenas.TextureAllocArena.PushBack` | src/common/platform/software/TextureAllocArena.cpp:112 | Appends a block by moving; the temporary does not abort. |
| `TextureArenas.TextureAllocArena.Erase` | src/common/platform/software/TextureAllocArena.cpp:161 | Shifting by swaps removes exactly the block at the position; its destructor aborts if and only if it is in use. |
| `TextureArenas.TextureAllocArena.Alloc` | src/common/platform/software/TextureAllocArena.cpp:82-146 | First fit over the blocks, or a new block, does what the allocator on values does. |
| `TextureArenas.TextureAllocArena.FindBlock` | src/common/platform/software/TextureAllocArena.cpp:170-175 | Finds the first block with the id, or none. |
| `TextureArenas.TextureAllocArena.Gc` | src/common/platform/software/TextureAllocArena.cpp:153-168 | Terminates, removes exactly the empty blocks and keeps the others with their contents in order; no destructor aborts. |
| `TextureArenas.TextureSoftware.Swap` | src/common/platform/software/TextureSoftware.cpp:13-26 | Exchanges the two textures, ownership included. |
| `TextureArenas.TextureSoftware.MoveFrom` | src/common/platform/software/TextureSoftware.cpp:39-50 | Takes over a texture and leaves one that owns nothing. |
| `TextureArenas.TextureSoftware.MoveAssign` | src/common/platform/software/TextureSoftware.cpp:61-64 | Exchanges the two textures. |
| `TextureArenas.TextureSoftware.Clone` | src/common/platform/software/TextureSoftware.cpp:82-94 | A clone owns a new slot of the target arena and the original keeps its own; a format mismatch ends the program. |
| `TextureArenas.TextureSoftware.Destruct` | src/common/platform/software/TextureSoftware.cpp:52-59 | Gives the slot back; fails if and only if the block is unknown or the slot is not taken. |
| `Base64.AllRoundTrip` | src/common/ByteBuffer.h:114-125 | Base64 of section 4 of RFC 4648 decodes to what was encoded and contains no colon, for every length. |
| `Base64.EncodeLength` | src/common/ByteBuffer.h:115 | The text has 4 * ((n + 2) / 3) characters, as its buffer is sized for. |
| `Base64.KnownTexts` | src/common/ByteBuffer.h:114-125 | The alphabet and padding are those of RFC 4648: its section 10 examples, and the last two digits. |
| `StringSplits.PiecesJoin` | src/common/util.h:23-33 | Joining the pieces restores the string and no piece contains the separator. |
| `StringSplits.PiecesAreUnique` | src/common/util.h:23-33 | There is no other way to cut the string into pieces free of the separator. |
| `StringSplits.StringSplit` | src/common/util.h:23-33 | The loop calls back with exactly those pieces, in order. |
| `CertHashes.ReprRoundTrip` | src/common/CertHash.cpp:58-98 | fromRepr(getRepr(h)) is h for every valid hash of any length; an invalid hash stays invalid. |
| `CertHashes.ReadableTexts` | src/common/CertHash.cpp:58-84 | A text reads as a valid hash if and only if it is a known prefix, alone or with one Base64 field. |
| `CertHashes.ReadRepr` | src/common/CertHash.cpp:58-84 | The parser driven by the callback computes what the pieces say. |
| `CertHashes.Compare` | src/common/CertHash.cpp:100-106 | True if and only if the hash is the certificate's own digest of that type. |
| `CertHashes.VerifyCert` | src/common/net/NetworkSocket.cpp:150-175 | A certificate passes if and only if nothing is wrong with it, or only its issuer is unknown and one of the expected hashes is its own. |
| `CertHashes.StrangersAreNotRecognised` | src/common/net/NetworkSocket.cpp:150-175 | A flawed certificate is never recognised, and one without a known issuer if and only if an expected hash is the certificate itself or its SHA-256. |
| `CertHashes.Load` | src/server/KnownClients.cpp:40-50 | Reads a saved list, leaving out what is not valid. |
| `CertHashes.LoadedExactly` | src/server/KnownClients.cpp:40-50 | What is loaded is exactly the valid hashes among what the texts read as; a text that is not Base64 where it should be ends the program. |
| `CertHashes.SavedListIsLoaded` | src/server/KnownClients.cpp:40-60 | A list of valid hashes survives being saved and loaded, in order. |
| `PinCode.ReadPin` | src/server/Connection.cpp:404-413 | The loop over the line buffer computes the PIN of the line, with 32-bit wrap-around, or -1. |
| `PinCode.DisplayedPinIsRead` | src/client/StreamWindow.cpp:57-61 | A line with the digits of a displayed PIN, with blanks anywhere, is read as that PIN. |
| `PinCode.TypedPinIsRead` | src/server/Connection.cpp:399-413 | A PIN typed as displayed, or without the blank, and ended with Enter is read as that PIN. |
| `PinCode.SpaceMakesNoDifference` | src/server/Connection.cpp:406-407 | A space, tab, line feed or carriage return anywhere in a line makes no difference; alone it is read as 0. |
| `PinCode.OtherCharacterRefuses` | src/server/Connection.cpp:408-411 | Any character but these four and the digits makes the line unreadable. |
| `PinCode.SomePins` | src/client/StreamWindow.cpp:57-61 | A PIN looks like 1234 5678; that line and Enter is read as it, and Enter alone as 0. |
| `PinCode.BlankLineIsZero` | src/server/Connection.cpp:401-413 | A line of blanks alone is read as the number 0. |
| `PinCode.LineIsReadAs` | src/server/Connection.cpp:404-413 | Every line: the number its digits make, wrapped to 32 bits, or -1 if it is empty or holds anything but digits and blanks. |
| `PinCode.LongLineWraps` | src/server/Connection.cpp:412 | The line 4294967296 is read as 0. |
| `Commitments.CommitmentBinds` | src/common/protobuf/auth.proto:7-16 | Two nonces have one commitment only if SHA-384 takes the two inputs, server certificate, client certificate and nonce one after the other, to the same first 48 bytes. |
| `Commitments.CommitmentExistsExactly` | src/server/Connection.cpp:317-333 | A commitment exists if and only if the hash of that input does with at least 48 bytes, and has 48. |
| `Commitments.PinIsOfHash` | src/common/protobuf/auth.proto:29-31 | The PIN is the eight least significant decimal digits of the first eight bytes, least significant first, of the SHA-512 of server certificate, client certificate, server nonce and client nonce. |
| `Connections.Connection.HandlePacket` | src/server/Connection.cpp:82-125 | One turn of the receive loop is one step of the connection as a state machine. |
| `Connections.Connection.OpenAuth` | src/server/Connection.cpp:276-338 | The answer tells nothing about the host; an exchange is opened only for a nonce of at least 16 bytes and a commitment of 48, which it remembers; the server's own commitment is sent only for the nonce it remembers. |
| `Connections.Connection.Reveal` | src/server/Connection.cpp:340-397 | The server's nonce is sent only after a client nonce of the announced length that matches the commitment. |
| `Connections.Connection.EnterPin` | src/server/Connection.cpp:399-436 | The typed line: a wrong PIN is refused, the right one stores the client's hash and authorises. |
| `Connections.Connection.Configure` | src/server/Connection.cpp:201-243 | The configuration reaches the stream server, exactly when it is answered OK, only if authorised, not streaming and with a positive mode; an unauthorised client is told nothing. |
| `Connections.Connection.Start` | src/server/Connection.cpp:245-263 | The start call is made and streaming set only if authorised; it is answered OK if and only if authorised and the stream server agreed; an unauthorised client is told nothing. |
| `Connections.Connection.Query` | src/server/Connection.cpp:165-199 | An unauthorised client is told neither mode nor success. |
| `Connections.Connection.Intro` | src/server/Connection.cpp:130-146 | The introduction is answered OK if and only if the version matches and the client is authorised. |
| `ServerAnswers.IntroAnswer` | src/server/Connection.cpp:130-146 | The greeting is answered OK if and only if the version is right and the client authorised; a wrong version outweighs missing authorisation. |
| `ServerAnswers.PingAnswer` | src/server/Connection.cpp:148-163 | A ping is answered if and only if the client is authorised, under its own number and with the clock at that moment. |
| `ServerAnswers.QueryAnswer` | src/server/Connection.cpp:165-199 | Every authorised client is told the native mode, with OK if and only if it asks for the codec the server has; no other is told anything. |
| `ServerAnswers.ConfigureAnswer` | src/server/Connection.cpp:201-243 | The stream is configured, in the mode requested, if and only if the client is authorised, the connection does not stream, the codec is the server's and the mode is positive; the answer then gives the captured and the requested size. |
| `ServerAnswers.StartAnswer` | src/server/Connection.cpp:245-263 | The stream server is asked to start if and only if the client is authorised; answer and mark follow its agreement. |
| `ServerAnswers.StreamingExactlyWhenStarted` | src/server/Connection.cpp:245-263 | Over every trace, the connection counts as streaming if and only if a start by an authorised client succeeded. |
| `ServerAnswers.AuthRequestAnswer` | src/server/Connection.cpp:276-338 | A short nonce and a commitment of the wrong size are refused, each with its status; otherwise the server announces its nonce's length and commits to it. |
| `ServerAnswers.NonceAnswer` | src/server/Connection.cpp:340-399 | The server reveals its nonce and prompts if and only if the client's has the length announced and is the one committed to. |
| `ServerAnswers.PinLineAnswer` | src/server/Connection.cpp:415-436 | The right line is answered OK, authorises the client and stores the SHA-256 of its certificate; any other gets its own status and changes neither. |
| `ServerAnswers.StopAnswer` | src/server/Connection.cpp:265-274 | A request to stop ends the stream and is acknowledged; the connection still counts as streaming. |
| `ServerAnswers.OtherPacketsAreIgnored` | src/server/Connection.cpp:82-125 | Any packet that is no request is ignored, but for closing a pending authentication and the data it brings. |
| `ServerAnswers.PacketsDoNotAuthorise` | src/server/Connection.cpp:82-436 | No packet changes who is authorised or which certificates are known; only a typed line does. |
| `AuthHistory.AuthorisedExactlyWhenGranted` | src/server/Connection.cpp:82-436 | Over every trace: authorised if and only if the certificate was recognised at connect, or the trace holds an accepted request followed only by nonces and typed lines, one nonce matching length and commitment and met at the prompt by the exchange's PIN. |
| `AuthHistory.StreamCallsNeedAuthorisation` | src/server/Connection.cpp:201-263 | A step configures or starts the stream only if the connection was authorised before it; authorisation is never lost. What a step can call without it is the next row. |
| `AuthHistory.StrangerEndsExactly` | src/server/Connection.cpp:265-274 | A step of an unauthorised connection calls the stream server if and only if it takes in a request to stop, and then ends the stream. |
| `AuthHistory.StrangersOnlyEnd` | src/server/Connection.cpp:82-274 | In every run, the calls of a connection that is not authorised are exactly one end of the stream for each request to stop. |
| `AuthHistory.StreamSurvivesStrangersExactly` | src/server/StreamServer.cpp:115-133 | A stream that others started survives every run of an unauthorised connection if and only if that connection sends no request to stop. |
| `AuthHistory.StrangerEndsTheStream` | src/server/Connection.cpp:265-274 | One packet of a connection that is not authorised ends a stream others configured and started. |
| `AuthHistory.StreamingImpliesAuthorised` | src/server/Connection.cpp:245-263 | In every reachable state, streaming, or any configure or start call made, means authorised. |
| `Disclosure.UnauthorisedLearnNothing` | src/server/Connection.cpp:130-436 | In every run, a client that is not authorised has been told no mode, no time and no success. |
| `AuthHistory.BlankLineCancelsUnlessPinIsZero` | src/server/Connection.cpp:399-425 | A line of blanks refuses the client if and only if the true PIN is not 0. |
| `AuthHistory.LineAdmitsExactly` | src/server/Connection.cpp:404-436 | A typed line admits the client if and only if it holds nothing but digits and blanks and their number is the PIN modulo 2^32. |
| `StreamClients.StreamClient.DoIntro` | src/client/StreamClient.cpp:155-272 | The whole script over whatever the connection delivers ends as the client's state machine does. |
| `StreamClients.StreamClient.DoAuth` | src/client/StreamClient.cpp:274-360 | The authentication script ends as the state machine does, with the same packets sent, PIN shown and hash stored. |
| `StreamClients.TrustedExactlyWhenApproved` | src/client/StreamClient.cpp:155-360 | Whatever a server sends: the client shows a PIN if and only if the first three replies ask for authentication, announce a nonce and give one, and then the PIN of that nonce; it changes the stored hash if and only if the fourth reply, coming right after that nonce, approves, and then to that of the certificate it sees; connected after asking for authentication, it has had both. |
| `StreamClients.ConnectedExactly` | src/client/StreamClient.cpp:155-272 | Whatever a server sends: the client is connected if and only if the greeting accepts its version, an authentication that either side wants is approved, and the three replies behind it give the capabilities, accept the configuration and start the stream. |
| `StreamClients.ConnectedIsServed` | src/client/StreamClient.cpp:203-269 | A connected client has asked for exactly the mode it was told, and keeps the captured and the video size it was given. |
| `StreamClients.ProgramEndsExactly` | src/client/StreamClient.cpp:155-360 | Which replies end the program rather than only the attempt, for every point of the script. |
| `CommitmentChecks.ClientConformsExactly` | src/common/protobuf/auth.proto:23-24 | Against the client the protocol describes, which compares the server's nonce with the commitment: for every sequence of replies the client does the same if and only if the nonce that gave a PIN is the one promised. |
| `CommitmentChecks.CommitmentNotRead` | src/client/StreamClient.cpp:320-346 | Whatever the packet with the commitment carries, everything the client does afterwards is the same. |
| `CommitmentChecks.MismatchRefusedExactly` | src/client/StreamClient.cpp:335-343 | A nonce other than the one promised is refused if and only if no PIN can be computed from it. |
| `CommitmentChecks.MismatchIsTrusted` | src/client/StreamClient.cpp:320-356 | Replies whose commitment does not match the nonce: the client shows the PIN, stores the hash and is connected, which with the check it would not be. |
| `CommitmentChecks.CheckedPinIsFixed` | src/common/protobuf/auth.proto:13-24 | With the check, once the server has sent its commitment it can make the client show different PINs only with two nonces that SHA-384, behind both certificates, takes to the same 48 bytes. |
| `CommitmentChecks.PinIsNotFixed` | src/client/StreamClient.cpp:335-346 | Without it, after any accepted commitment the client shows the PIN of any nonce that has one. |
| `CommitmentChecks.ServerPinIsFixed` | src/server/Connection.cpp:340-415 | The server does check: two traces that share the request taken up can grant different PINs only with two such client nonces. |
| `CommitmentChecks.CopiedPinIsComparedExactly` | src/common/protobuf/auth.proto:26-29 | Whoever stands between them: when what the client displays is typed at the server's prompt, the server authorises if and only if the PIN of the certificates and nonces it saw is the PIN of those the client saw. |
| `CommitmentChecks.CheckedClientConnectsToo` | src/common/protobuf/auth.proto:13-24 | Honest servers keep their promise: in every honest run that connects the client, the client with the check ends the same on the same packets. |
| `PairingRuns.PairingCompletes` | src/client/StreamClient.cpp:155-360 | Honest pairing: no run of client, server and user fails, none takes more than fourteen moves, and a run can go no further if and only if the client is connected. |
| `PairingRuns.ConnectedMeansAdmitted` | src/server/Connection.cpp:276-436 | A connected run ends authorised and streaming in the native mode; a PIN was shown if and only if one side did not know the other, and then each stored the other's hash. |
| `PairingRuns.BothSidesDeriveOnePin` | src/client/StreamClient.cpp:130-153 | Whenever both sides know a PIN it is the same one, and the client can print it. |
| `PairingRuns.PairedReconnectsWithoutPin` | src/client/StreamClient.cpp:32-58 | With what a first run stored, written out and read back, both sides recognise each other and no run of the next connection shows a PIN. |
| `PowersOfTwo.NextPowerOfTwoIsLeast` | src/common/util.h:36-40 | For every word width the result is the least power of two not below the value if and only if the value is at least 1 and at most the word's largest power of two; otherwise it is 0. |
| `PowersOfTwo.RoundSmears` | src/common/util.h:39 | Each round doubles the number of highest bits known to be ones. |
| `RingBuffers.RingBuffer.Write` | src/common/RingBuffer.h:42-46 | Appends to the queue the ring stands for. |
| `RingBuffers.RingBuffer.WriteBlock` | src/common/RingBuffer.h:48-64 | Appends a whole block for every wrap position, up to completely full. |
| `RingBuffers.RingBuffer.Read` | src/common/RingBuffer.h:66-72 | Takes the oldest element. |
| `RingBuffers.RingBuffer.ReadBlock` | src/common/RingBuffer.h:74-91 | Takes the oldest elements in order for every wrap position and leaves the rest of the destination alone. |
| `RingBuffers.RingBuffer.Drop` | src/common/RingBuffer.h:36-40 | Forgets exactly the oldest elements. |
| `RingBuffers.RingBuffer.Clear` | src/common/RingBuffer.h:31-34 | Leaves the empty queue. |
| `AudioPaths.CubebUserData.DataCb` | src/client/StreamWindow.cpp:128-147 | The device gets every sample waiting, oldest first, up to what it asks for, and silence only behind the last; exactly those leave the ring; an underrun is noted if and only if there were too few; positions stay even. |
| `AudioPaths.CubebUserData.Enqueue` | src/client/StreamWindow.cpp:206-213 | The ring keeps exactly the newest samples; it never drops more than it holds; positions stay even. |
| `AudioPaths.CallbackPlaysInOrder` | src/client/StreamWindow.cpp:128-213 | In every run a callback plays the decoded sound from an even position on, so left and right never swap, and is silent only behind the last sample decoded so far. |
| `AudioPaths.CallbackTakesWhatItPlays` | src/client/StreamWindow.cpp:128-138 | In every run a callback takes away exactly the samples it plays. |
| `AudioPaths.CallbacksDoNotOverlap` | src/client/StreamWindow.cpp:128-213 | In every run no sample is played twice or out of order. |
| `AudioPaths.OverflowDropsOnlyTheExcess` | src/client/StreamWindow.cpp:210-213 | Samples are lost only when a block does not fit, and then exactly as many of the oldest as there is no room for. |
| `MinMaxRings.MinMaxTrackingRingBuffer.Push` | src/common/util.h:105-123 | The buffer holds the last numbers; true minimum, maximum and counts stay true if and only if the push does not drain a one-slot buffer. |
| `MinMaxRings.MinMaxTrackingRingBuffer.Pop` | src/common/util.h:125-168 | The oldest number leaves; true values stay true if and only if it was not the last. |
| `MinMaxRings.MinMaxTrackingRingBuffer.RescanMin` | src/common/util.h:134-146 | The rescan finds the minimum and its exact multiplicity across wrap-around. |
| `MinMaxRings.MinMaxTrackingRingBuffer.RescanMax` | src/common/util.h:148-163 | The rescan finds the maximum and its exact multiplicity across wrap-around. |
| `MinMaxRings.StaleDisagrees` | src/common/util.h:108-121 | After a drained buffer is filled again with one number, the tracked values are wrong whatever the number is. |
| `MinMaxRings.DrainedRecoversExactly` | src/common/util.h:105-123 | After the last number v was popped, pushing numbers that fit makes the tracked values true again if and only if one of them is below v and one above. |
| `NetworkClocks.NetworkClock.Adjust` | src/client/NetworkClock.cpp:36-76 | An answer advances local time to the hinted time, updates the latency estimate and corrects the epoch by the thresholds; the ping table index stays in range. |
| `NetworkClocks.NetworkClock.MonotonicHint` | src/client/NetworkClock.cpp:78-89 | Local time is at least the hinted time afterwards. |
| `NetworkClocks.NetworkClock.GeneratePing` | src/client/NetworkClock.cpp:91-117 | When a ping is due; the sleep is 15 ms without one and the smaller of 60 ms and the table entry with one; the table index only moves on within the table. |
| `NetworkClocks.NetworkClock.SendPing` | src/client/NetworkClock.cpp:119-137 | Exactly the requests older than thirty seconds are forgotten. |
| `NetworkClocks.HintStepsBackExactly` | src/client/NetworkClock.cpp:78-89 | A hint moves local time back if and only if the hinted time lies strictly between the two readings. |
| `NetworkClocks.AnswerAtOneInstant` | src/client/NetworkClock.cpp:36-76 | At one instant local time ends at or after the server's clock; the excess becomes 0 from 300 ms on, at most half rounded up from 100 us on, and stays otherwise. |
| `NetworkClocks.TwelveAnswersSynchronise` | src/client/NetworkClock.cpp:62-75 | With clocks that run at the same speed, twelve answers bring local time to less than 100 us ahead of the server's clock and not behind it, wherever it was. |
| `NetworkClocks.AnswersConverge` | src/client/NetworkClock.cpp:71-75 | Once below 100 us the excess stays as it is. |
| `NetworkClocks.LatencyWithinSamples` | src/client/NetworkClock.cpp:51-59 | The latency estimate stays between the smallest and the largest round trip seen and is never again 0. |
| `NetworkClocks.EstimateHalvesTheDistance` | src/client/NetworkClock.cpp:51-59 | The first round trip is taken over; each later one halves the estimate's distance to it, to within rounding, and never passes it. |
| `NetworkClocks.EstimateConverges` | src/client/NetworkClock.cpp:51-59 | Whatever the estimate was, 32 equal round trips bring it within one microsecond of them. |
| `NetworkClocks.CorrectionShrinksTheError` | src/client/NetworkClock.cpp:61-75 | At the reading it is made for, a correction removes an error of 300 ms or more, halves one of 100 us or more, and leaves a smaller one, whether local time was ahead or behind. |
| `NetworkClocks.AliveExactly` | src/client/NetworkClock.cpp:123-130 | The requests kept are exactly those of the last thirty seconds, unchanged. |
| `Framing.NetworkSocket.Send` | src/common/net/NetworkSocket.cpp:188-243 | However writes are split, a successful send puts exactly the frame on the wire and a failed one a proper part of it. |
| `Framing.NetworkSocket.Prepare` | src/common/net/NetworkSocket.cpp:194-214 | The buffer of packet length plus sixteen always suffices. |
| `Framing.NetworkSocket.WriteAll` | src/common/net/NetworkSocket.cpp:217-226 | The partial-write loop writes everything or, after an error, a proper prefix. |
| `Framing.NetworkSocket.Recv` | src/common/net/NetworkSocket.cpp:245-288 | Reads one frame, taking or skipping its extra data, and leaves the rest of the stream. |
| `Framing.WordTakesTenBytes` | src/common/net/NetworkSocket.cpp:200-204 | A 64-bit length takes at most ten bytes (Protocol Buffers Encoding, "Base 128 Varints"). |
| `Framing.VarintGroups` | src/common/net/NetworkSocket.cpp:204 | Each byte of a length holds seven bits of it, least significant group first, and says whether more follow (Protocol Buffers Encoding, "Base 128 Varints"). |
| `Framing.SizeReadsBack` | src/common/net/NetworkSocket.cpp:260-262 | A length is read back if and only if it fits a signed 32-bit integer. |
| `Framing.FrameReadsBackExactly` | src/common/net/NetworkSocket.cpp:260-287 | A frame is read back with nothing left over, its extra data wanted or not, if and only if its packet is no longer than a signed 32-bit integer can say. |
| `Framing.PacketsArriveExactly` | src/common/net/NetworkSocket.cpp:188-288 | Packets sent one after the other all arrive as sent and in order, whichever receives skip extra data, if and only if the bytes they need (all but extra data skipped at the very end) are within the limit of the one input stream of the connection; what follows stays on the stream. |
| `Framing.WireGrows` | src/common/net/NetworkSocket.cpp:188-243 | A successful send continues what earlier sends put on the wire. |
| `CursorShapes.ShapeBuilder.ParseCursor` | src/server/platform/windows/CaptureD3D.cpp:265-314 | Size, format and every pixel of the decoded shape for each pointer type; an unknown type leaves an empty image. |
| `CursorShapes.DecodeColour` | src/server/platform/windows/CaptureD3D.cpp:274-285 | The two loops write the image the source's words stand for, row by row, for every pitch. |
| `CursorShapes.DecodeMonochrome` | src/server/platform/windows/CaptureD3D.cpp:292-307 | The three loops write, one after the other, the pixels the two masks stand for. |
| `CursorShapes.DecodeOctet` | src/server/platform/windows/CaptureD3D.cpp:298-306 | The shifting loop writes eight pixels, leftmost bit first. |
| `CursorShapes.MonochromeImageKeepsItsMeaning` | src/server/platform/windows/CaptureD3D.cpp:286-307 | Composited by the RGBA_XOR rule over any screen, every pixel shows (screen AND andMask) XOR xorMask. |
| `CursorShapes.MonochromeFillsTheImageExactly` | src/server/platform/windows/CaptureD3D.cpp:292-293 | Every pixel is written if and only if the width is a multiple of eight or there is no row. |
| `CursorShapes.MaskedImageKeepsItsMeaning` | src/server/platform/windows/CaptureD3D.cpp:267-285 | Every pixel with a mask byte of all zeros or all ones replaces the screen or combines with it as the desktop does. |
| `CursorShapes.AlphaIsAllOrNothingExactly` | src/common/protobuf/stream.proto:24-29 | A masked pixel's alpha is 0x00 or 0xFF, as the format promises, if and only if its mask byte was. |
| `CursorShapes.ColourImageReordersBytes` | src/server/platform/windows/CaptureD3D.cpp:277-280 | Every colour pixel holds the source's bytes with the first and third exchanged. |
| `CursorShapes.SwizzleIsItsOwnInverse` | src/server/platform/windows/CaptureD3D.cpp:280 | Exchanging red and blue twice restores every word. |
| `AudioRechunks.AudioEncoder.RunWorker` | src/server/AudioEncoder.cpp:87-119 | The worker encodes and holds back what feeding its input piece by piece yields. |
| `AudioRechunks.AudioEncoder.Feed` | src/server/AudioEncoder.cpp:104-118 | One captured buffer: the frames it completes and the bytes held back. |
| `AudioRechunks.AudioEncoder.Copy` | src/server/AudioEncoder.cpp:106-117 | One pass of the inner loop always makes progress and loses nothing. |
| `AudioRechunks.CuttingDoesNotMatter` | src/server/AudioEncoder.cpp:104-118 | However the sound is cut into buffers the same frames are encoded, all of the fixed size, and with the bytes held back they are the sound. |

## Left out

- FFmpeg, Opus, Media Foundation, Direct3D, mbedTLS and protobuf: codecs are oracles that answer each stamp at most
  once, hash functions and the serialisation are parameters, the serialisation is assumed invertible where a round
  trip is stated.
- Memory order: atomics and locks are sequentially consistent in the step relations, one event per access.
- Restarting a decoder or encoder: each model covers one start-to-stop run; what leftovers do is `LeftoversShadow`.
- Several readers, pushers or callers of stop() at once: one of each, as the client and the server use them.
- Sizes beyond the machine's: `size_t` and `long long` counters do not wrap in the model; PIN parsing, the latency
  estimate, the length prefix and the power-of-two words do.
- Allocation failure, and the calls that end the program for reasons outside the modelled code.
- Several arenas, swapping arenas, and destroying an arena: one arena lives as long as its textures. Allocation,
  release and collection are atomic steps.
- `av_image_copy` in `TextureSoftware::clone`: the clone's ownership and layout are modelled, its picture is not.
- `ByteBuffer`: a buffer is its sequence of bytes; capacity and reuse of storage would add easy members only.
- End of input at the PIN prompt, lines longer than 254 characters, and what stays in the terminal after them.
- Broadcast packets and pings between the packets of a handshake: the composed runs have none.
- A send of the client that fails: the connection going down is seen at the next receive, with the same outcome.
- A byte stream that ends inside a packet: the receive fails in the model; the library may accept a shorter packet.
- Receiving again after a failed receive: nothing is said of what can still be read then.
- White space and line breaks that mbedTLS tolerates in Base64 text: the model's decoder accepts none.
- The frame counts, bit rates and scaling of sound, floating-point rounding, statistics, rendering and windows.
- Two threads calling `monotonicHint` at once, and steady clocks that run backwards.
