# CatPlay: verified models of the audio ring, the gadget state machines and the frame storage

This project models four parts of CatPlay in Dafny 4.11 and proves what they are for.
`dafny verify dfyconfig.toml` checks all of it.

**The audio ring** (`carplay/catplay_ring`). One producer and one consumer share a timeline on which every
position is a sample or a gap. The reference is that timeline without any bound (`hist`), looked at through a
window of the last `capacity` positions. The ring is refined to it layer by layer:

| file | layer |
|---|---|
| `Words64.dfy`, `Bitmap.dfy` | masks on 64-bit words, and the packed gap bitmap as a sequence of booleans |
| `RingStorage.dfy` | doubled vector and kernel mirror as one memory read around its end |
| `Timeline.dfy`, `RingImage.dfy` | segments as the canonical cutting of a window; when a memory is an image of a timeline |
| `RingBuffer.dfy` | the ring and its segment iterator, with arrays and heads updated in place |
| `Reports.dfy` | what `read` reports, and zero-filling by that report |
| `Sessions.dfy`, `RingRefinement.dfy` | whole runs, and that the array ring carries them out |
| `MicroSteps.dfy`, `Interleaving.dfy` | producer and reader one shared-memory step at a time |
| `Capacity.dfy` | the capacity that fills whole pages |

**The gadgets.** `TxClient.dfy` (USB transmitter client), `WirelessReceiver.dfy` and `ProdGadget.dfy` (both composed)
give each render as a function of fields, state and environment. That the reconcile loop ends is proved for an environment
that stands still; the invariants hold over all runs of renders, each in its own environment, with anything in between. `Gadgets.dfy` holds the
same machines as classes whose methods update their fields in place, and carries whole runs out on them.

**Checksummed storage.** `Crc32.dfy` defines CRC-32 bit by bit and by table (section 8 of RFC 1952) and proves what it
detects; `CrcValues.dfy` proves the values by which it is known. `ByteCodec.dfy` and `KeyframeCache.dfy` are the keyframe cache file, `ReclaimableVec.dfy` the vector whose
memory the kernel may take back.

**The I420 layout.** `YuvLayout.dfy` is the placing of the planes and the bounds of dirty rectangles.

## Where the code does less than its name or comments suggest

- `write` with more than `capacity` samples stores the kept tail at the old head slot, so it reads back rotated unless
  the length is a multiple of the capacity (`RingImage.OversizeWrite`, `RingImage.InOrderExactly`).
- `XRunReport` counts gaps inside the window as underflow, but zero-fills at the end of the data. The result is the
  silence-padded window if and only if no sample follows a missing position (`Reports.ZeroFillExactly`); a run of three
  calls leads to a window where one does (`Sessions.MixedWindow`).
- The segment iterator's promise to show its snapshot rests on the producer staying within one capacity of the read
  head, which the ring does not enforce (`Interleaving.RuleIsNeeded`, `Interleaving.OverrunIsSeen`).
- The branch "Already transmitting during pop_transmitter" cannot be reached, even with `force_unlock`; what
  `force_unlock` breaks, exactly when a guard is alive, is that one guard owns the flag (`TxClient.OwnershipExactly`,
  `TxClient.ForceUnlockExactly`, `TxClient.ForcedLockBreaksOwnership`).
- `YuvShadowBuffer::update` is refused for an image with an odd side, although the layout provides for it
  (`YuvLayout.FullUpdateNeedsEvenSides`), and the bounds of a dirty rectangle are added in 32 bits, which a release
  build lets wrap (`YuvLayout.AcceptedStaysInside`, `YuvLayout.WrappedIsAccepted`).

## Model

| member | source | states |
|---|---|---|
| Timeline.RunsExpand | carplay/catplay_ring/src/ring_buffer.rs:131-155 | Cutting any window of the timeline into segments and expanding them again gives the window back, position by position. |
| Timeline.RunsCanonical | carplay/catplay_ring/src/ring_buffer.rs:131-155 | The segments of a window are all non-empty and no two neighbours are of the same kind. |
| Timeline.RunsUnique | carplay/catplay_ring/src/ring_buffer.rs:131-155 | There is only one such list: any list of non-empty segments with differing neighbours is what its own expansion is cut into. |
| Slots.MaskIsRemainder | carplay/catplay_ring/src/ring_buffer.rs:368-370 | For a power-of-two capacity, masking a logical position with capacity - 1 is the remainder by the capacity. |
| BitmapModel.Bitmap.constructor | carplay/catplay_ring/src/bitmap.rs:10-19 | A new bitmap of any capacity has no mark, and its flag says so. |
| BitmapModel.Bitmap.MarkRegion | carplay/catplay_ring/src/bitmap.rs:32-70 | Exactly the positions `[start, start + len)` become marked, over every word-boundary case; the empty flag stays exact. |
| BitmapModel.Bitmap.UnmarkRegion | carplay/catplay_ring/src/bitmap.rs:72-120 | Exactly the positions `[start, start + len)` become unmarked; the flag is recomputed so that it holds exactly when no word is set. |
| BitmapModel.EmptyMeansNoMark | carplay/catplay_ring/src/bitmap.rs:118-120 | In every valid state the cached flag holds if and only if no position of the capacity is marked. |
| BitmapModel.Bitmap.SearchNextGap | carplay/catplay_ring/src/bitmap.rs:122-217 | The word-level search returns the next gap of the boolean sequence that the words stand for. |
| BitmapModel.Bitmap.FirstNonZeroWord | carplay/catplay_ring/src/bitmap.rs:136-163 | The scan stops at the first masked word that is not zero, and nothing before it in the range is marked. |
| BitmapModel.Bitmap.ExtendRun | carplay/catplay_ring/src/bitmap.rs:190-216 | A run that reaches a word boundary is extended over any number of words to its end or to the end of the range, no further. |
| GapMarks.NextGapUnique | carplay/catplay_ring/src/bitmap.rs:122-217 | The next gap is the only pair of a leftmost marked position and the length of its maximal run clipped to the range. |
| RingImage.NextGapMeaning | carplay/catplay_ring/src/bitmap.rs:122-217 | What a returned gap, or none, says of every position of the range. |
| RingStorageModel.RingStorage.constructor | carplay/catplay_ring/src/ring_storage.rs:15-24 | Both kinds of storage begin mirrored, with the default value everywhere. |
| RingStorageModel.RingStorage.SyncMirrorRange | carplay/catplay_ring/src/ring_storage.rs:42-67 | After the copies, cell `i` equals cell `i + capacity` for all `i` and the ring holds the old samples with the written ones over them, whichever way the write straddled the boundary. |
| RingStorageModel.CopiedAcross | carplay/catplay_ring/src/ring_storage.rs:49-66 | The two copies of the doubled vector amount to the one memory that the kernel mirror has, with the write going around it. |
| RingStorageModel.RingStorage.Slice | carplay/catplay_ring/src/ring_buffer.rs:142-147 | A contiguous window of the doubled memory, from any slot and up to the capacity long, holds the samples of the consecutive slots around the ring. |
| RingImage.CommitRepresents | carplay/catplay_ring/src/ring_buffer.rs:588-609 | Storing the newest samples of a write at the head slot and clearing their marks makes the memory an image of the longer timeline, for any timeline length and any write length. |
| RingImage.AdvanceRepresents | carplay/catplay_ring/src/ring_buffer.rs:452-471 | Marking the slots of the skipped time makes the memory an image of the timeline with that many holes appended. |
| RingImage.SearchOfRing | carplay/catplay_ring/src/ring_buffer.rs:426-450 | Over any held stretch, searches of one or two pieces of the ring find what a search of the timeline finds. |
| RingImage.JoinedSearch | carplay/catplay_ring/src/ring_buffer.rs:426-450 | Two searches of the ring, joined when the first run ends at the physical end and the second begins at slot zero, are one search of the timeline. |
| RingImage.StretchMarks | carplay/catplay_ring/src/ring_buffer.rs:426-450 | Over any held stretch of the timeline the ring marks, before and after the wrap, are the holes of the timeline. |
| RingImage.FittingWrite | carplay/catplay_ring/src/ring_buffer.rs:619-639 | A write of at most the capacity is appended sample by sample. |
| RingImage.OversizeWrite | carplay/catplay_ring/src/ring_buffer.rs:626-632 | A longer write leaves the last `capacity` samples of the input readable, in the order of that tail rotated left by the length modulo the capacity. |
| RingImage.InOrderExactly | carplay/catplay_ring/src/ring_buffer.rs:619-632 | All inputs of a length are kept in order if and only if the length is at most the capacity or a multiple of it. |
| RingBufferModel.RingBuffer.constructor | carplay/catplay_ring/src/ring_buffer.rs:372-385 | A new ring of any requested size has that size rounded up to a power of two, an empty timeline, nothing read, no marks. |
| RingBufferModel.RingBuffer.RingIndex | carplay/catplay_ring/src/ring_buffer.rs:368-370 | The masked logical position is its remainder by the capacity. |
| RingBufferModel.RingBuffer.WriteCommitAdvance | carplay/catplay_ring/src/ring_buffer.rs:588-609 | Publishing a pending write mirrors it, clears the marks it overwrote and appends its cells to the timeline; the ring stays an image of the timeline. |
| RingBufferModel.RingBuffer.Write | carplay/catplay_ring/src/ring_buffer.rs:619-639 | Appends the input as stored (in order when it fits, else as OversizeWrite says) and reports Complete, or Partial with the capacity. |
| RingBufferModel.RingBuffer.WriteDefault | carplay/catplay_ring/src/ring_buffer.rs:489-498 | Appends the given number of default samples, whatever that number is. |
| RingBufferModel.RingBuffer.AdvanceTimeline | carplay/catplay_ring/src/ring_buffer.rs:452-471 | Appends the given number of holes, whatever that number is. |
| RingBufferModel.RingBuffer.SearchGapAbs | carplay/catplay_ring/src/ring_buffer.rs:426-450 | Over a held stretch it finds the first hole of the timeline and its whole run, joined across the ring wrap. |
| RingBufferModel.RingBuffer.IterSegments | carplay/catplay_ring/src/ring_buffer.rs:401-423 | A new iterator stands before exactly the window of the timeline that the request covers from the read head. |
| RingBufferModel.RingSegments.Next | carplay/catplay_ring/src/ring_buffer.rs:131-155 | Each call yields the first segment of the canonical cutting of what is left and leaves the rest; it ends exactly when nothing is left, and every call that yields makes the rest shorter. |
| RingBufferModel.RingSegments.SizeHint | carplay/catplay_ring/src/ring_buffer.rs:157-160 | The number of segments still to come lies between the two bounds, and the bounds are one for a lost and one for a late part, if there is any, and for the held part one or one per position. |
| RingBufferModel.RingSegments.Drop | carplay/catplay_ring/src/ring_buffer.rs:165-169 | The read head moves by what was yielded and no more. |
| RingBufferModel.RingBuffer.ReadCommit | carplay/catplay_ring/src/ring_buffer.rs:611-617 | The read head moves by the given number. |
| RingBufferModel.RingBuffer.ReadSegments | carplay/catplay_ring/src/ring_buffer.rs:387-392 | The callback sees the canonical segments of the whole covered window, which is then consumed. |
| RingBufferModel.RingBuffer.Read | carplay/catplay_ring/src/ring_buffer.rs:525-569 | Every position of the output at which the timeline has a sample gets that sample, the others keep their content; the report counts lost, copied and missing positions, and is an error when any was lost or missing. |
| RingBufferModel.RingBuffer.Stat | carplay/catplay_ring/src/ring_buffer.rs:641-662 | `readable` is what a read without underflow can cover, whatever it requests; `overflow` is how many positions of that a read reports as lost; `underflow` is by how much reads have run ahead of the writes. |
| RingImage.LostRun | carplay/catplay_ring/src/ring_buffer.rs:131-136 | Positions older than the last `capacity` make up one Overflow segment, followed by the segments of the rest. |
| RingImage.HeldGapRun | carplay/catplay_ring/src/ring_buffer.rs:138-146 | When the next hole is at the cursor, the whole run of holes is the next segment. |
| RingImage.HeldDataRun | carplay/catplay_ring/src/ring_buffer.rs:138-152 | Otherwise the samples up to the next hole, or to the end of what is held, are the next segment. |
| RingImage.HeldRunCount | carplay/catplay_ring/src/ring_buffer.rs:157-160 | How few and how many segments a held stretch with a missing tail can have. |
| Reports.ReportIsComplete | carplay/catplay_ring/src/ring_buffer.rs:171-189 | Lost, copied and missing add up to the requested length for every window. |
| Reports.LostComeFirst | carplay/catplay_ring/src/ring_buffer.rs:203-209 | The lost positions are exactly the first `overflow` of the window. |
| Reports.ZeroFill | carplay/catplay_ring/src/ring_buffer.rs:191-218 | The method overwrites exactly the prefix of lost positions and the `underflow` positions after the copied ones. |
| Reports.DataRange | carplay/catplay_ring/src/ring_buffer.rs:203-218 | When no sample follows a missing position, the filled ranges are exactly the positions without data; otherwise they cover a sample and miss a hole. |
| Reports.ZeroFillExactly | carplay/catplay_ring/src/ring_buffer.rs:191-201 | Zero-filling gives the silence-padded window for every former content of the output if and only if no sample follows a missing position in the window. |
| Sessions.ChunkIndependence | carplay/catplay_ring/src/ring_buffer.rs:92-94 | Reading n and then m reports the same positions the same way as reading n + m at once, with or without underflow. |
| Sessions.EarlyDrop | carplay/catplay_ring/src/ring_buffer.rs:395-400 | Dropping an iterator after any number of segments consumes exactly those first segments of its window and leaves exactly the rest. |
| Sessions.WriteIsRead | carplay/catplay_ring/src/ring_buffer.rs:619-639 | A reader that is up to date and reads past the end of the next write is told exactly: the samples in order if they fit; else as many lost positions as were too many and the last `capacity` samples, rotated; and then the missing positions, if it asked for them. |
| Sessions.PaddingIsRead | carplay/catplay_ring/src/ring_buffer.rs:452-498 | The same of written defaults and of skipped time: what was overwritten is lost, the newest `capacity` positions come back as defaults and as gaps. |
| Sessions.StepFaithful | carplay/catplay_ring/src/ring_buffer.rs:74-97 | Log and timeline only grow; only a read adds to the log, and what it adds is what it finds at that position: the cell, overwritten, or not yet written. What was delivered stays what the timeline has. |
| Sessions.RunFaithful | carplay/catplay_ring/src/ring_buffer.rs:74-97 | After every run the log is exactly as long as the read head, delivered cells are those of the timeline, and positions reported lost are overwritten for good. |
| Sessions.EveryPositionReported | carplay/catplay_ring/src/ring_buffer.rs:74-97 | In every run of writes of any length, skips and reads, each position below the read head was reported by a read of the run, as what the timeline showed a reader at that position when that read began. |
| Sessions.ReportedOnce | carplay/catplay_ring/src/ring_buffer.rs:92-94 | By one read only. |
| Sessions.LateIsNeverDelivered | carplay/catplay_ring/src/ring_buffer.rs:96-97 | However a run goes on, a position keeps its report, and it is reported as underflow if and only if it was not written when its read began: what is written for it later is never delivered. |
| Sessions.MixedWindow | carplay/catplay_ring/src/ring_buffer.rs:191-218 | Writing a sample, skipping one and writing another leads, in every ring of more than one sample, to a window with data after a gap, on which zero-filling is not exact. |
| Sessions.Conservation | carplay/catplay_ring/src/ring_buffer.rs:74-95 | Over any run, what was lost, copied and missing adds up to the read head. |
| RingRefinement.RunOnRing | carplay/catplay_ring/src/ring_buffer.rs:366-662 | Running any sequence of operations on the array ring, of any requested size and either storage kind, reports the same log and heads as the run on the unbounded timeline. |
| RingRefinement.ReadUpTo | carplay/catplay_ring/src/ring_buffer.rs:401-423 | Taking at most a number of segments from a live iterator and dropping it is the read step of the run. |
| MicroSteps.WordsEffect | carplay/catplay_ring/src/bitmap.rs:32-120 | Word-by-word updates of the bitmap add up to filling the whole region. |
| MicroSteps.StoreEffect | carplay/catplay_ring/src/ring_storage.rs:42-67 | Storing sample by sample and mirroring cell by cell adds up to the mirrored memory with the write in it. |
| MicroSteps.ProgramWithin | carplay/catplay_ring/src/ring_buffer.rs:588-609 | Every single step of an operation touches only slots between the old and the new head. |
| MicroSteps.Untouched | carplay/catplay_ring/src/ring_buffer.rs:588-609 | After any number of those steps the slots elsewhere show what they showed before, and the empty flag never hides a mark among them. |
| MicroSteps.ProgramResult | carplay/catplay_ring/src/ring_buffer.rs:588-609 | A completed operation leaves the memory an image of the longer timeline. |
| Interleaving.Undisturbed | carplay/catplay_ring/src/ring_buffer.rs:138-152 | At any moment of an operation, the ring shows at every held position of a live iterator, in both halves and in the bitmap, what the timeline had when the iterator was made. |
| Interleaving.Preserves | carplay/catplay_ring/src/ring_buffer.rs:128-169 | Every step of the producer and of the reader, in any order, keeps the invariant. |
| Interleaving.RunInv | carplay/catplay_ring/src/ring_buffer.rs:128-169 | Hence it holds in every state of every run. |
| Interleaving.EveryReaderSeesItsSnapshot | carplay/catplay_ring/src/ring_buffer.rs:128-169 | In every state of every interleaving in which no operation overlapping a live iterator takes the write head more than the capacity past the read head, the Overflow, Data, Gap and Underflow segments yielded so far, read through their borrowed windows at that moment, together with the segments of the rest, are the canonical segments of the requested window at the snapshot, and what was yielded expands to exactly the positions consumed. |
| Interleaving.OnlyYieldedIsConsumed | carplay/catplay_ring/src/ring_buffer.rs:165-169 | In every interleaving the end of an iterator moves the read head past exactly the positions that its segments expand to; no other step moves it. |
| Interleaving.EveryRestIsAnImage | carplay/catplay_ring/src/ring_buffer.rs:588-609 | Whenever the producer is between operations, memory, mirror, marks and flag are an exact image of the timeline. |
| Interleaving.RuleIsNeeded | carplay/catplay_ring/src/ring_buffer.rs:588-609 | After any write or skip over any memory at rest, the slot of a held sample or hole shows it if and only if the newest position in that slot has an equal cell, and that is another position exactly when the write head ends more than the capacity past it. |
| Interleaving.OverrunIsSeen | carplay/catplay_ring/src/ring_buffer.rs:128-169 | In every ring a run leads to a live iterator that has handed out a sample which a write of one capacity, forbidden by nothing but the rule, would turn into another under it. |
| Capacity.NextPowerLeast | carplay/catplay_ring/src/ring_buffer.rs:474-474 | The rounded size is the least power of two that is large enough. |
| Capacity.CapacityLeast | carplay/catplay_ring/src/ring_buffer.rs:372-375 | The capacity of a ring of any size is the least sufficient power of two, and so is the one chosen up front without a page size or for elements of no size. |
| Capacity.GcdUsize | carplay/catplay_ring/src/ring_storage.rs:82-90 | The loop computes the greatest common divisor. |
| Capacity.GcdDivides | carplay/catplay_ring/src/ring_storage.rs:82-90 | It divides both numbers. |
| Capacity.GcdGreatest | carplay/catplay_ring/src/ring_storage.rs:82-90 | No common divisor is greater. |
| Capacity.ElementsPerPage | carplay/catplay_ring/src/ring_storage.rs:71-80 | For every element size and power-of-two page, page / gcd is a power of two, and a number of elements fills whole pages exactly when it is a multiple of that. |
| Capacity.SpscFillsPages | carplay/catplay_ring/src/ring_buffer.rs:473-482 | The capacity chosen is a power of two, at least the size asked for, fills whole pages, passes through the constructor unchanged, and is the least with these properties. |
| TxClient.TurnRanks | catplay_carplay_tx_gadget/src/client.rs:226-354 | Every render that changes the state lowers a rank of at most 6. |
| TxClient.ReconcileStable | async/catplay_async/src/reconciler.rs:54-73 | Under a frozen environment the loop ends in a state that another render leaves unchanged. |
| TxClient.TurnExclusive | catplay_carplay_tx_gadget/src/client.rs:206-354 | Render and update keep at most one of pending connect, pending transmitter and transmitting flag, none of them while waiting for an invite or invited, and change neither flag nor guards. |
| TxClient.ApplyExclusive | catplay_carplay_tx_gadget/src/client.rs:157-177 | So do a render, a whole reconcile call, picking up, dropping the guard, resolving a connect, an invite and the forced unlock; all but the last keep one live guard exactly while the flag is set. |
| TxClient.RunExclusive | catplay_carplay_tx_gadget/src/client.rs:157-177 | Over every run of such actions, with another environment for each render and anything in between, the first holds, and the second as long as the lock is not forced under a live guard. |
| TxClient.ReconcileByRenders | async/catplay_async/src/reconciler.rs:54-73 | A reconcile call whose environment stands still is a run of renders. |
| TxClient.NeverAlreadyTransmitting | catplay_carplay_tx_gadget/src/client.rs:157-164 | In every run, render by render, even with forced unlocks, a transmitter ready for pick-up means that the flag is down: the debug branch is never taken. |
| TxClient.OneOwner | catplay_carplay_tx_gadget/src/client.rs:157-177 | In every run, render by render, in which the lock is not forced under a live guard, at most one of pending connect, pending transmitter and live guard exists. |
| TxClient.OwnershipExactly | catplay_carplay_tx_gadget/src/client.rs:152-177 | The flag stands for one live guard in every state of a run if and only if the run never forces the lock while a guard is alive. |
| TxClient.ForceUnlockExactly | catplay_carplay_tx_gadget/src/client.rs:152-155 | In any exclusive and guarded state, a forced unlock keeps flag and guard together if and only if no guard is alive, and if and only if one is alive can some continuation, without another forced unlock, make two guards live at once. |
| TxClient.ForcedLockBreaksOwnership | catplay_carplay_tx_gadget/src/client.rs:152-155 | From a new client, in any session, a run with one forced unlock ends with two live guards, and dropping one of them clears the flag under the other. |
| TxClient.HandoverEffect | catplay_carplay_tx_gadget/src/client.rs:79-177 | From any client that waits for an invite with an idle control server, in any session and any environments of that session, an invite, a connect that succeeds and the pick-up raise the flag, add a guard and change nothing else but state and time. |
| TxClient.FailedConnect | catplay_carplay_tx_gadget/src/client.rs:206-268 | From any exclusive client with an attempt in flight, an attempt that fails ends in Err(Connect) with that failure in the next render, unless the USB gadget itself failed; control server, attempt and session are forgotten, and transmitter, flag and guards left alone. |
| TxClient.RestsExactly | catplay_carplay_tx_gadget/src/client.rs:226-354 | One reconcile call that does not wait out an error ends in exactly the first of these: USB failure, connect failure, no session, control server failure, transmitter ready, connecting, transmitting, an invite taken up (the one accepted already, else the next, the first being dropped if the client was not waiting for it), or waiting for one. |
| TxClient.WhatARestLeaves | catplay_carplay_tx_gadget/src/client.rs:206-354 | Such a call leaves flag and guards alone, a transmitter ready exactly if one was or an attempt succeeded, everything of the session forgotten after an error, which is dated, and otherwise the control server and attempt that fit session and state. |
| TxClient.OneInvitePerRender | catplay_carplay_tx_gadget/src/client.rs:294-329 | A render in a session takes exactly one invite off the queue, wanted or not, and starts the control server if the session is new or has none. |
| TxClient.ErrorRests | catplay_carplay_tx_gadget/src/client.rs:227-235 | An error younger than a second is waited out: nothing changes. |
| TxClient.StateAfterPop | catplay_carplay_tx_gadget/src/client.rs:348-353 | Picking up from a reconciled client and reconciling again gives Transmitting if a transmitter was ready and the same state otherwise. |
| TxClient.FreshNeverReady | catplay_carplay_tx_gadget/src/client.rs:226-354 | A new client does not reach TransmitterReadyForPickup or Transmitting in one reconcile. |
| WirelessReceiver.TurnRanks | catplay_carplay_rx_gadget/src/server_wireless.rs:282-540 | Every render that changes the state lowers a rank of at most 12. |
| WirelessReceiver.ReconcileStable | async/catplay_async/src/reconciler.rs:54-73 | The loop ends in a state that another render leaves unchanged. |
| WirelessReceiver.TurnConsistent | catplay_carplay_rx_gadget/src/server_wireless.rs:258-540 | Render and update keep, for each state, whether server, last MAC and Bluetooth are there, and that the MAC in the state, the last MAC and the one the server was made with agree. |
| WirelessReceiver.RunConsistent | catplay_carplay_rx_gadget/src/server_wireless.rs:258-540 | The same in every state of every run, with another environment for each render and settings changed in between. |
| WirelessReceiver.ServerHasLastMac | catplay_carplay_rx_gadget/src/server_wireless.rs:426-463 | In every run, render by render, a server is there exactly from StartingLastConnect onwards, was made with exactly the last MAC, and UnexpectedState is never reached. |
| WirelessReceiver.InterfaceLossRemovesServer | catplay_carplay_rx_gadget/src/server_wireless.rs:301-315 | One reconcile after the interface is gone or has another MAC, server, last MAC and Bluetooth are dropped and the error says which it was. |
| WirelessReceiver.RestsAtFirstObstacle | catplay_carplay_rx_gadget/src/server_wireless.rs:282-540 | One reconcile call that does not wait out an error runs on to the first thing that is not in order and ends in exactly the state or error for it, with the addresses it has then; when all is in order it receives if there is a session, is passive if invites are blocked, and invites otherwise. |
| WirelessReceiver.ServingFollowsSession | catplay_carplay_rx_gadget/src/server_wireless.rs:506-538 | With a server on an unchanged interface, the state after a call is Receiving with a session, else Passive with invites blocked, else Inviting. |
| WirelessReceiver.OneStagePerRender | catplay_carplay_rx_gadget/src/server_wireless.rs:317-505 | Each render of the start-up goes on by one stage and leaves none out, but for the last connect when no peer is known. |
| WirelessReceiver.WhatARestLeaves | catplay_carplay_rx_gadget/src/server_wireless.rs:174-320 | Such a call leaves an error dated and cleaned up, the interface address as last MAC and server address, the peer read from its file at most once, the block flag alone, and the last-connect task running from the end of the start-up until there was a session. |
| WirelessReceiver.ErrorRests | catplay_carplay_rx_gadget/src/server_wireless.rs:283-291 | An error younger than a second is waited out: nothing changes. |
| WirelessReceiver.ReceivingAfterBlocking | catplay_carplay_rx_gadget/src/server_wireless.rs:506-538 | Blocking or unblocking invites does not change whether a reconciled receiver is receiving. |
| ProdGadget.TurnConsistent | c2a/catplay_c2a/src/prod_gadget.rs:164-300 | The composed render keeps the invariants of both children. |
| ProdGadget.NextSeen | c2a/catplay_c2a/src/prod_gadget.rs:190-300 | From one render to the next the receiver shows the same state, and a ready transmitter shows as transmitting and stays so. |
| ProdGadget.StepSeen | c2a/catplay_c2a/src/prod_gadget.rs:273-299 | Which state follows which in one render, by what the children show. |
| ProdGadget.TurnRanks | c2a/catplay_c2a/src/prod_gadget.rs:190-300 | Every render that changes the composed state lowers a rank of at most 9, so the cycle of WaitingForCar, WaitingForIPhone and Running is not repeated. |
| ProdGadget.Renders | async/catplay_async/src/reconciler.rs:54-73 | The composed loop ends after at most 10 renders. |
| ProdGadget.RunningMeansBoth | c2a/catplay_c2a/src/prod_gadget.rs:290-297 | If the loop returns Running, the transmitter side is Transmitting and the receiver side is Receiving. |
| ProdGadget.RestsExactly | c2a/catplay_c2a/src/prod_gadget.rs:273-299 | One reconcile call with both children rests by what their own calls end in: Running with a car and a phone, WaitingForIPhone with a car only, and without a car in WaitingForCar unless it waits for a phone that has not come. |
| ProdGadget.StartRests | c2a/catplay_c2a/src/prod_gadget.rs:193-243 | A call that finds no client makes it and rests in WaitingForCar, or reports that it could not; an error is waited out for a second. |
| ProdGadget.BlockedUntilTaken | c2a/catplay_c2a/src/prod_gadget.rs:253-273 | In every state of every run a car is remembered exactly if some render so far found a transmitter ready, and invites are blocked on the receiver exactly as long as none did; an error means that there is no client, and blocks invites. |
| ProdGadget.RunningOwnTurn | c2a/catplay_c2a/src/prod_gadget.rs:290-297 | Whatever the environment does, a render that leaves Running unchanged, as the last one of a call that returns Running does, found the transmitter side Transmitting and the receiver side Receiving. |
| ProdGadget.RunInv | c2a/catplay_c2a/src/prod_gadget.rs:164-300 | The invariants of both children, and that a live guard implies a remembered car session, hold in every state of every run of the composed gadget, with renders of the children, the own part of a render, resolved connects, invites and dropped guards in any order and each in its own environment. |
| ProdGadget.ComposedRuns | c2a/catplay_c2a/src/prod_gadget.rs:190-300 | In every such run a connect, transmitter or session has one owner, nothing is ready for pick-up while a guard lives, the receiver never reports UnexpectedState, and its server has the last MAC. |
| Gadgets.UsbClient.ConnectBonjour | catplay_carplay_tx_gadget/src/client.rs:79-97 | Starts a connect if the invite has an address, else reports failure and starts none. |
| Gadgets.UsbClient.PopTransmitter | catplay_carplay_tx_gadget/src/client.rs:157-177 | Takes the pending transmitter, sets the flag and hands out a guard, or does nothing; says whether the flag was already up. |
| Gadgets.UsbClient.OnUpdate | catplay_carplay_tx_gadget/src/client.rs:206-224 | Cleans up exactly what an error state drops. |
| Gadgets.UsbClient.Render | catplay_carplay_tx_gadget/src/client.rs:226-354 | The field-updating render does what the step function says, in its new fields and its result. |
| Gadgets.UsbClientReconciler.Reconcile | async/catplay_async/src/reconciler.rs:54-73 | The `while dirty` loop computes the fixpoint, in at most 7 renders. |
| Gadgets.WirelessReceiver.OnUpdate | catplay_carplay_rx_gadget/src/server_wireless.rs:258-280 | Cleans up exactly what an error state drops. |
| Gadgets.WirelessReceiver.SetInvitesBlocked | catplay_carplay_rx_gadget/src/server_wireless.rs:228-230 | Only the flag changes. |
| Gadgets.WirelessReceiver.LoadPeer | catplay_carplay_rx_gadget/src/server_wireless.rs:174-197 | With a cache file set, reads the peer once and keeps an earlier one if the file has none; without a file nothing is marked as loaded. |
| Gadgets.WirelessReceiver.Render | catplay_carplay_rx_gadget/src/server_wireless.rs:282-540 | The field-updating render does what the step function says. |
| Gadgets.ReceiverReconciler.Reconcile | async/catplay_async/src/reconciler.rs:54-73 | The loop computes the fixpoint. |
| Gadgets.ComposedGadget.OnUpdate | c2a/catplay_c2a/src/prod_gadget.rs:164-188 | An error state blocks invites on the receiver, if there is one. |
| Gadgets.ComposedGadget.Render | c2a/catplay_c2a/src/prod_gadget.rs:190-300 | Creating, reconciling and updating the two children in place does what the composed step function says, and its pick-up never finds the flag up already. |
| Gadgets.ComposedGadget.PickUp | c2a/catplay_c2a/src/prod_gadget.rs:253-271 | A ready transmitter is taken over and remembered, and invites are blocked exactly when none was ever taken. |
| Gadgets.ComposedReconciler.Reconcile | async/catplay_async/src/reconciler.rs:54-73 | The composed loop computes the fixpoint, in at most 10 renders, and no pick-up on the way finds the flag up already. |
| Gadgets.RunOnClient | catplay_carplay_tx_gadget/src/client.rs:145-354 | Carrying any run of enabled actions out on a client object ends in the state of the model, and no pick-up finds the flag up already. |
| Gadgets.RunOnReceiver | catplay_carplay_rx_gadget/src/server_wireless.rs:255-540 | Carrying any run out on a receiver object ends in the state of the model, and UnexpectedState never shows in between. |
| Gadgets.RunOnComposed | c2a/catplay_c2a/src/prod_gadget.rs:161-300 | Carrying any run out on a composed object, which makes its children itself, ends in the state of the model; no pick-up finds the flag up already, transmitter and session have one owner, and the receiver is as expected. |
| Crc32.TableIsRounds | c2a/catplay_fb/src/reclaimable_vec.rs:391-395 | A step of the table-driven CRC-32 (section 8 of RFC 1952) is eight rounds of the shift register. |
| CrcValues.CheckValue | c2a/catplay_fb/src/reclaimable_vec.rs:391-395 | The checksum of the digits one to nine is 0xCBF43926, the check value of CRC-32. |
| CrcValues.Residue | c2a/catplay_fb/src/reclaimable_vec.rs:391-395 | Every text followed by its own checksum, little-endian, has the checksum 0x2144DF1C. |
| Crc32.HasherInPieces | c2a/catplay_fb/src/reclaimable_vec.rs:385-395 | Feeding a hasher in pieces gives the checksum of the whole. |
| Crc32.EmptyCrc | c2a/catplay_fb/src/reclaimable_vec.rs:177-209 | The checksum of nothing is zero, the value a new builder writes. |
| Crc32.UpdateInjective | c2a/catplay_fb/src/reclaimable_vec.rs:391-395 | Over the same text, different registers stay different. |
| Crc32.BurstDetected | c2a/catplay_fb/src/reclaimable_vec.rs:385-395 | Texts of one length that differ only inside four consecutive bytes have different checksums. |
| KeyframeCache.Cursor.Take | c2a/catplay_fb/src/keyframe_cache_file.rs:167-205 | Takes exactly the bytes asked for and moves past them, or fails without moving, with the error the overflow or the truncation calls for. |
| KeyframeCache.Cursor.ReadU32 | c2a/catplay_fb/src/keyframe_cache_file.rs:167-205 | The little-endian value of the next four bytes, or an error exactly when fewer are left. |
| ByteCodec.Utf8Exactly | c2a/catplay_fb/src/keyframe_cache_file.rs:152-164 | The bytes accepted as a hash are exactly the UTF-8 encodings of texts of Unicode scalar values. |
| KeyframeCache.HeaderReadBack | c2a/catplay_fb/src/keyframe_cache_file.rs:138-164 | An encoded header, whatever follows it, has the fields it was made from. |
| KeyframeCache.HeaderDetermined | c2a/catplay_fb/src/keyframe_cache_file.rs:138-164 | Bytes that have these fields are that encoding and what follows it. |
| KeyframeCache.DecodeHeader | c2a/catplay_fb/src/keyframe_cache_file.rs:152-164 | Decodes exactly the bytes that begin with an encoded header, and reports a bad hash exactly when the hash bytes are complete and not UTF-8. |
| KeyframeCache.FileLayout | c2a/catplay_fb/src/keyframe_cache_file.rs:107-150 | Bytes are the encoding of a key and entry if and only if magic, lengths, checksums, hash, width, height, density and buffers stand at exactly these offsets. |
| KeyframeCache.FramedReadBack | c2a/catplay_fb/src/keyframe_cache_file.rs:60-91 | A framed file has the magic, length and checksums that loading looks for. |
| KeyframeCache.FrameDetermined | c2a/catplay_fb/src/keyframe_cache_file.rs:60-91 | Bytes with that magic, length and checksums are that frame. |
| KeyframeCache.ReadFrame | c2a/catplay_fb/src/keyframe_cache_file.rs:60-91 | The frame checks accept exactly those files. |
| KeyframeCache.ReadFile | c2a/catplay_fb/src/keyframe_cache_file.rs:60-95 | A file is accepted exactly if it holds some header and body, and these are then the only ones it holds. |
| KeyframeCache.Load | c2a/catplay_fb/src/keyframe_cache_file.rs:53-105 | Loading for a key returns an entry if and only if the file is the encoding of that key and entry; when it is missing, belongs to another key, or has a hash that is not UTF-8, exactly the error for that case is given. |
| KeyframeCache.Store | c2a/catplay_fb/src/keyframe_cache_file.rs:107-134 | Stores the encoding of key and entry exactly when the two lengths fit 32 bits, and fails otherwise. |
| KeyframeCache.StoreThenLoad | c2a/catplay_fb/src/keyframe_cache_file.rs:53-134 | What was stored is loaded again for the same key, and gives OutOfDate for every other key. |
| KeyframeCache.FilesApart | c2a/catplay_fb/src/keyframe_cache_file.rs:60-91 | Two acceptable files that differ only inside four consecutive bytes are equal. |
| KeyframeCache.DamageIsNoEncoding | c2a/catplay_fb/src/keyframe_cache_file.rs:60-91 | A file damaged inside four consecutive bytes, anywhere from magic to body, is no encoding of any key and entry. |
| KeyframeCache.LoadDamaged | c2a/catplay_fb/src/keyframe_cache_file.rs:53-105 | Loading such a file fails for every key with a format or hash error. |
| ReclaimableVecModel.RoundUpLeast | c2a/catplay_fb/src/reclaimable_vec.rs:397-400 | The least multiple that is not smaller, or nothing when it exceeds the word. |
| ReclaimableVecModel.AcceptsExactly | c2a/catplay_fb/src/reclaimable_vec.rs:125-137 | The field-by-field checks accept exactly the memories whose header is the one written for the live data; magic, version, lengths and checksums stand at exactly these offsets. |
| ReclaimableVecModel.DamageNoticed | c2a/catplay_fb/src/reclaimable_vec.rs:85-137 | A memory that differs from an accepted one inside four consecutive bytes is accepted if and only if header and live data are untouched. |
| ReclaimableVecModel.ReclaimNoticed | c2a/catplay_fb/src/reclaimable_vec.rs:125-137 | A memory whose first page was reclaimed, so that it reads as zero, is never accepted, whatever follows the header. |
| ReclaimableVecModel.ReclaimableVec.CopyToVec | c2a/catplay_fb/src/reclaimable_vec.rs:85-103 | Returns the live bytes if header and data are intact, else Gone. |
| ReclaimableVecModel.ReclaimableVec.Validate | c2a/catplay_fb/src/reclaimable_vec.rs:105-118 | Succeeds exactly when CopyToVec does. |
| ReclaimableVecModel.Builder.WithCapacity | c2a/catplay_fb/src/reclaimable_vec.rs:177-209 | A capacity whose page-rounded size exceeds the word is refused with CapacityOverflow; otherwise the builder starts empty and sealed. |
| ReclaimableVecModel.Builder.WriteHeader | c2a/catplay_fb/src/reclaimable_vec.rs:325-340 | Writes the forty header bytes, their own checksum included, and nothing else. |
| ReclaimableVecModel.Builder.RefreshHeaderCrc | c2a/catplay_fb/src/reclaimable_vec.rs:320-323 | Reseals the memory for the current contents. |
| ReclaimableVecModel.Builder.Clear | c2a/catplay_fb/src/reclaimable_vec.rs:232-235 | Empties the contents and reseals. |
| ReclaimableVecModel.Builder.SetLen | c2a/catplay_fb/src/reclaimable_vec.rs:247-255 | Up to the capacity the contents become that many of the bytes already there; past it nothing changes. |
| ReclaimableVecModel.Builder.Push | c2a/catplay_fb/src/reclaimable_vec.rs:257-268 | Appends one byte and reseals, or changes nothing when full. |
| ReclaimableVecModel.Builder.ExtendFromSlice | c2a/catplay_fb/src/reclaimable_vec.rs:270-285 | Appends all of the bytes and reseals, or changes nothing when they do not fit. |
| ReclaimableVecModel.Builder.SetFromSlice | c2a/catplay_fb/src/reclaimable_vec.rs:287-298 | Replaces the contents and reseals, or changes nothing when they do not fit. |
| ReclaimableVecModel.Builder.Build | c2a/catplay_fb/src/reclaimable_vec.rs:304-318 | Whatever was written through the raw slice, the built vector is sealed and holds the contents. |
| ReclaimableVecModel.BuildDamageCopy | c2a/catplay_fb/src/reclaimable_vec.rs:85-137 | After building, copying gives the contents; after damage inside four consecutive bytes it gives the same contents or Gone, never others. |
| YuvLayout.AlignOffsetLeast | c2a/catplay_fb/src/yuv_shadow_buffer.rs:8-11 | The least 64-byte aligned offset that is not smaller. |
| YuvLayout.PlanesFit | c2a/catplay_fb/src/yuv_shadow_buffer.rs:98-131 | At every base address and for every image size the three planes are aligned, in order, disjoint and inside the storage length. |
| YuvLayout.I420Sides | c2a/catplay_fb/src/yuv_shadow_buffer.rs:98-104 | Every pixel has its chroma sample and every chroma sample a pixel, by row and by column, and the planes are as long as the products of their sides. |
| YuvLayout.StorageIsTight | c2a/catplay_fb/src/yuv_shadow_buffer.rs:105-106 | The allowance for alignment cannot be smaller: an image at some address fills the storage to its last byte. |
| YuvLayout.SlicersAgree | c2a/catplay_fb/src/yuv_shadow_buffer.rs:133-169 | In every accepted buffer the splitting slicer stays inside it and gives the same planes as the indexing one: from each offset as many bytes as the plane has. |
| YuvLayout.AcceptedStaysInside | c2a/catplay_fb/src/yuv_shadow_buffer.rs:198-258 | When the checks and the slicing accept a non-empty rectangle, every sample of it lies at its pixel's place in all planes and in the source if and only if the bounds hold of the unwrapped sums and a source row fits 32 bits. |
| YuvLayout.InvalidExactly | c2a/catplay_fb/src/yuv_shadow_buffer.rs:206-214 | A rectangle is refused as invalid exactly if one of its numbers is odd or a 32-bit sum exceeds the side as 32 bits keep it. |
| YuvLayout.BoundedIsAccepted | c2a/catplay_fb/src/yuv_shadow_buffer.rs:198-258 | Every even, non-empty rectangle that is truly inside is accepted, and no slice begins past the end of its plane, if the source has all rows. |
| YuvLayout.WrappedIsAccepted | c2a/catplay_fb/src/yuv_shadow_buffer.rs:212-258 | A rectangle of a 4 by 2 image whose far edge wraps is accepted by checks and slicing and does not stay inside. |
| YuvLayout.FullUpdateNeedsEvenSides | c2a/catplay_fb/src/yuv_shadow_buffer.rs:185-214 | Updating the whole image is refused as an invalid rectangle exactly when a side is odd, and accepted otherwise. |

## Left out

Of the ring:

- Hardware memory ordering: each atomic load, store and word update is one step, and steps of both sides interleave in any order.
- The wrap-around of `usize` heads: heads are unbounded numbers.
- `mmap`, `memfd`, `shm_open` and their failures: kernel-mirrored storage is one memory read twice around. The step-by-step model has the doubled vector only, where more can go wrong.
- Callers of `writable_slice` that store beyond what they commit, and `readable_slice`, which ignores gaps.
- RingBufferModel.RingBuffer.WriteCommitAdvance: its preconditions describe the pending write of the callers inside the crate; a direct `write_commit` of samples that a caller put into the slice is the case of a Pending write of that many samples.
- RingBufferModel.RingBuffer.AdvanceTimeline: the call of `write_commit_advance(0, size)` copies and unmarks nothing, so the model moves the head directly.
- RingBufferModel.RingBuffer.ReadSegments: the callback is the list of segments it was given.
- RingBufferModel.RingBuffer.Write: on values; the input is a sequence that does not alias the ring.
- Conversion of the statistics to audio time and their display.

Of the gadgets:

- The environment (USB gadget, Bluetooth, network interface, control server, sessions) is a value per render, each part of which a render reads once; what happens to a gadget during a render happens before or after it.
- Payloads of errors are codes; the transmitter, session and connect objects are only present or absent.
- Names of interfaces and Bluetooth adapters, the announcement timer, `sleep`, `burst_wakeups`, `shutdown`, `state_mut`, writing the peer cache file, and the body of the last-connect task.
- The `pending_transmitter` slot of the composed gadget: nothing ever fills it, so the branches that look at it are not part of this model.
- The failure of the car manager, which panics, and the USB receiver (`catplay_carplay_rx_gadget/src/server.rs`), which has the shape of the wireless one with fewer states.
- The guard runs its closure once, when it is dropped.

Of the storage and the layout:

- File access and its errors: a cache file is absent or a sequence of bytes.
- `mmap`, `madvise` and `munmap` of the reclaimable vector: its memory is an array, and reclaiming is any change to it.
- ReclaimableVecModel.Builder.ExtendFromSlice: the sum of two lengths of slices in memory cannot exceed the word, so the CapacityOverflow of its `checked_add` does not occur.
- KeyframeCache.LoadDamaged: damage that is spread over more than four consecutive bytes may go unnoticed by any 32-bit checksum.
- The conversion of colours itself (`libyuv` or `yuv`), and images whose plane sizes exceed `usize`.
- YuvLayout.AcceptedStaysInside: the empty rectangle, which touches nothing, is excluded; sums wrap as in a release build, and the panic of a slice that begins past its end is an error value. How much of the source the conversion reads past the start of the rectangle is not part of this model.
- HID reports, SDP and management constants, identification builders, fonts and rendering, the schema generator, the async and derive macros: tables and plumbing.
