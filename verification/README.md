# Verified model of the pico web logic analyser

A Dafny model of the stateful core of this repository: the ring FIFO of the USB stack and the
queues, endpoint streams and control transfers built on it, the streaming capture engine with
its command layer, and the DHCP server. Each part is written in the form of the source
(classes and in-place arrays where the source updates state, functions where it computes), and
each main result is a statement over every input, every run or every interleaving.

| file | part of the system |
|---|---|
| `Basics.dfy` | what several parts share |
| `RingIndex.dfy`, `RingFifo.dfy` | index arithmetic and operations of the ring FIFO |
| `FifoRuns.dfy` | whole runs of the FIFO against a byte queue |
| `FifoConcurrency.dfy` | one writer and one reader without a lock, step by step |
| `HwFifo.dfy` | word-wide copies between the ring and a hardware FIFO |
| `OsalQueue.dfy` | the event queue of whole items over the byte FIFO |
| `EdptStream.dfy` | endpoint claiming, receive and transmit streams |
| `ControlEp0.dfy` | control transfers of the device stack |
| `SetupCounter.dfy` | the queued-SETUP counter between interrupt and task |
| `HostControl.dfy`, `DeviceTree.dfy` | control transfers and device removal of the host stack |
| `LaConfig.dfy`, `LaStream.dfy`, `LaModes.dfy` | capture configuration, continuous streaming, the four capture modes |
| `DhcpOptions.dfy`, `DhcpLease.dfy`, `DhcpServer.dfy` | DHCP options, the lease table over histories, the server |

`dafny verify dfyconfig.toml` checks everything. Nothing here runs the original program.

What lies outside the model enters as parameters: answers of the controller drivers
(`accept`, `sendOk`, `hcdOk`, and for a queued host transfer, sent once at most, `takes`), of the sampler (`capturing`, `started`), of the network (`sent`),
the bytes DMA samples and when its interrupt comes, and what completion callbacks do.

## What the proofs found

Where the code and its own comments or the obvious expectation differ, the code is modelled and
the exact condition is proved.

- `advance_index` is addition modulo `2*depth` exactly while the sum is below `4*depth`
  (`RingIndex.AdvanceIndexIsModulo`). All callers stay below.
- An overwritable `tu_fifo_write_n` drops exactly the oldest bytes if and only if `n >= depth` or
  the unread bytes plus `n` are at most `2*depth` (`RingFifo.DropOldestExactly`). The comment at
  src/common/tusb_fifo.c:539-548 treats the equal case as lost as well; it is not.
- `tu_fifo_write` has no such branch: with `2*depth - 1` bytes unread, one more byte makes the FIFO
  read as empty (`RingFifo.Fifo.WriteOne`).
- A transmit stream with an endpoint buffer pulls bytes out of its FIFO before it submits them. The bytes
  sent are the bytes written if and only if no such submission was refused
  (`EdptStream.SentInOrderExactly`); `EdptStream.RefusedRun` is a run that loses bytes.
- The packet mask of a receive stream rounds to whole packets if and only if the packet size is a power
  of two (`EdptStream.MaskRoundsDownExactly`).
- The device task counts a SETUP down with a load and a store, and the interrupt handler may count up in
  between. The counter stays exact if and only if that never happens and no SETUP waits behind a bus
  reset when it is handled (`SetupCounter.ExactIffUndisturbed`). `SetupCounter.SetupDuringCountDownIsLost`
  and `SetupCounter.SetupBehindResetIsLost` are runs in which a SETUP is dropped.
- A host control transfer whose address is closed 1 to 255 times while it is queued is never sent and ends
  as failed (`HostControl.ClosedWhileQueued`). One that is sent reaches the device it was accepted for,
  unless it was accepted inside `usbh_device_close` (from the callback that close runs) and sent after
  (`HostControl.SentToItsDevice`). `HostControl.ClosingWindow` is a run in which such a transfer reaches
  the next device at that address.
- A streaming block is intact if and only if DMA has not come round to it, which is never the case when
  the pass interrupt is a whole pass behind (`LaStream.Stream.BlockIntactExactly`); `LaStream.LateTake`
  is a run that hands out such a block. With an exact count it is always intact.
- `la_capture_chain_release` ignores a failed restart. The chained analysis then hands out nothing and
  blocks the other modes until it is stopped (`LaModes.StallLasts`).
- The DHCP server overlays each packet on the previous message, so a short packet is read with the rest
  of an older one (`DhcpServer.Overlaid`). Lease safety holds nonetheless, over every history of packets
  (`DhcpServer.Serve`), and even if two table entries share an address.

## Model

| member | source | states |
|---|---|---|
| RingIndex.AdvanceIndexValue | src/common/tusb_fifo.c:401-412 | two deliberate 16-bit overflows amount to subtracting the index space at most once |
| RingIndex.AdvanceIndexIsModulo | src/common/tusb_fifo.c:401-412 | it is addition modulo `2*depth`, and yields an index, if and only if the sum is below `4*depth` |
| RingIndex.Idx2Ptr | src/common/tusb_fifo.c:415-421 | repeated subtraction computes the slot, the index modulo the depth |
| RingIndex.OverflowCountAdvances | src/common/tusb_fifo.h:243-250 | the count is the one number that takes the read index to the write index |
| RingIndex.CorrectedRead | src/common/tusb_fifo.c:425-435 | the corrected index is an index exactly one full FIFO behind the write index |
| RingFifo.Fifo.constructor | src/common/tusb_fifo.c:38-59 | a configured FIFO is empty |
| RingFifo.Fifo.Config | src/common/tusb_fifo.c:38-59 | accepted exactly for depths up to 0x8000, then empty (a depth of 0 is accepted too, but is no FIFO); refused otherwise with nothing changed |
| RingFifo.Fifo.Clear | src/common/tusb_fifo.c:62-71 | empties the FIFO |
| RingFifo.Fifo.SetOverwritable | src/common/tusb_fifo.c:74-86 | changes the mode, not the contents |
| RingFifo.Fifo.State | src/common/tusb_fifo.h:267-291 | count, empty, full and remaining agree with the contents, overflowed or not |
| RingFifo.Fifo.PushN | src/common/tusb_fifo.c:363-376 | one or two copies store the data around the ring and nothing else changes |
| RingFifo.Fifo.PullN | src/common/tusb_fifo.c:379-393 | one or two copies return the bytes of the window |
| RingFifo.Fifo.CorrectReadIndex | src/common/tusb_fifo.c:425-435 | stores and returns the corrected index |
| RingFifo.Fifo.PeekLocal | src/common/tusb_fifo.c:443-473 | from any two loaded indices, returns the oldest of the at most `depth` newest bytes and corrects the read index exactly on overflow |
| RingFifo.Fifo.PeekN | src/common/tusb_fifo.c:476-483 | returns a prefix of the contents, which stay |
| RingFifo.Fifo.ReadN | src/common/tusb_fifo.c:486-496 | returns and removes a prefix of the contents, as long as asked for and available |
| RingFifo.Fifo.WriteOver | src/common/tusb_fifo.c:499-578 | every branch of an overwritable store shows `Overwritten` of the old contents, and both indices stay in range |
| RingFifo.Fifo.WriteBounded | src/common/tusb_fifo.c:499-578 | a bounded store appends what fits |
| RingFifo.Fifo.WriteN | src/common/tusb_fifo.c:499-578 | both cases of the public call, with the number of bytes it reports |
| RingFifo.OverwrittenEndsWithData | src/common/tusb_fifo.c:515-570 | whatever the branch, the FIFO shows as many bytes as it can, and the newest `min(n, depth)` bytes of the store end them |
| RingFifo.DropOldest | src/common/tusb_fifo.c:515-570 | a store outside the double-overflow family drops exactly the oldest bytes |
| RingFifo.DropOldestExactly | src/common/tusb_fifo.c:515-570 | and only such stores do: if and only if `n >= depth` or unread plus `n` is at most `2*depth` |
| RingFifo.OverwriteShows | src/common/tusb_fifo.c:515-570 | ring and indices after any overwritable store show `Overwritten`, the independent definition |
| RingFifo.Fifo.DiscardN | src/common/tusb_fifo.c:580-587 | moves the raw read index; on an overflowed FIFO it first discards bytes already lost |
| RingFifo.Fifo.WriteOne | src/common/tusb_fifo.c:637-655 | appends one byte or drops the oldest, except that at `2*depth - 1` unread the FIFO reads as empty |
| RingFifo.Fifo.PeekOne | src/common/tusb_fifo.c:595-634 | the first byte, which stays |
| RingFifo.Fifo.ReadOne | src/common/tusb_fifo.c:595-627 | the first byte, which goes; fails exactly on an empty FIFO |
| RingFifo.Fifo.AdvanceWritePointer | src/common/tusb_fifo.c:677-679 | by any amount: the index stays in range if and only if the sum is below `4*depth`, and what the unread count becomes |
| RingFifo.Fifo.Publish | src/common/tusb_fifo.c:677-679 | over bytes already stored behind the contents, it appends them |
| RingFifo.Fifo.AdvanceReadPointer | src/common/tusb_fifo.c:704-706 | by any amount: in range under the same condition; it removes bytes that are there, and beyond them makes slots already read count again |
| RingFifo.Fifo.GetReadInfo | src/common/tusb_fifo.c:723-768 | the two regions concatenate to exactly the contents |
| RingFifo.Fifo.GetWriteInfo | src/common/tusb_fifo.c:785-815 | the two regions are disjoint and are exactly the slots that hold no unread byte |
| RingFifo.Fifo.WriteThroughRegions | src/common/tusb_fifo.c:677-815 | filling the regions and advancing leaves ring, index and contents as `WriteN` would |
| RingFifo.Fifo.ReadThroughRegions | src/common/tusb_fifo.c:677-815 | draining the regions and advancing is `ReadN` |
| FifoRuns.Apply | src/common/tusb_fifo.c:443-655 | each operation of a bounded FIFO is the step of a bounded byte queue, reply included |
| FifoRuns.Run | src/common/tusb_fifo.c:443-655 | so is every sequence of operations, for every depth |
| FifoRuns.RunConserves | src/common/tusb_fifo.h:35-99 | over any run no byte is lost, duplicated or reordered |
| FifoRuns.RunOver | src/common/tusb_fifo.c:443-655 | every sequence of operations on an overwritable FIFO, reads and peeks included, is a run of the specification; while no write laps, what it shows are the newest bytes of all that were written |
| FifoRuns.RunShowsNewest | src/common/tusb_fifo.c:425-655 | over any run in which no write laps, the last `min(depth, unread)` bytes of everything written are what a reader gets |
| FifoConcurrency.StepKeeps | src/common/tusb_fifo.c:443-578 | every step of writer or reader keeps the invariant |
| FifoConcurrency.ReadIsPrefixOfWritten | src/common/tusb_fifo.h:35-42 | in every reachable state of every interleaving, the bytes read are a prefix of those published and the rest is pending |
| FifoConcurrency.CallsBegin | src/common/tusb_fifo.c:443-518 | a write takes in hand the first bytes of its own data, as many as there is room beside the pending ones; a read sets out for as many as asked for and pending |
| FifoConcurrency.WrittenIsOffered | src/common/tusb_fifo.c:499-578 | over every interleaving, what is published and in hand is the concatenation of those prefixes of the callers' data, in the order of the calls; what is read is a prefix of it |
| FifoConcurrency.CopiesNeverCollide | src/common/tusb_fifo.h:35-42 | the reader never copies a slot the writer is filling |
| FifoConcurrency.ReadReturnsWritten | src/common/tusb_fifo.c:443-496 | a read returns exactly the next bytes written |
| HwFifo.HwRead | src/common/tusb_fifo.c:203-241 | whole words and one more for an odd tail; just the asked bytes are stored |
| HwFifo.HwWrite | src/common/tusb_fifo.c:133-172 | whole words and one zero-padded word for an odd tail |
| HwFifo.Cuts | src/common/tusb_fifo.c:253-290 | where a copy across the wrap is cut into words, the straddling word included |
| HwFifo.HwPush | src/common/tusb_fifo.c:245-298 | consumes exactly `ceil(n/stride)` words and leaves the ring as `ff_push_n` of their bytes would, wrap or not |
| HwFifo.HwPull | src/common/tusb_fifo.c:301-355 | emits exactly the zero-padded words of the bytes in order, wrap or not |
| OsalQueue.Queue.constructor | src/osal/osal_none.h:170-179 | a queue whose depth is a whole number of items |
| OsalQueue.Queue.Send | src/osal/osal_none.h:196-208 | fails exactly when full and never stores part of an item |
| OsalQueue.Queue.Receive | src/osal/osal_none.h:186-194 | fails exactly when empty and always takes one whole item, the oldest |
| EdptStream.MaskRoundsDownExactly | src/tusb.c:425-447 | the mask rounds down to whole packets, whatever the room, if and only if the packet size is a power of two |
| EdptStream.RxStream.ReadXfer | src/tusb.c:425-447 | arms exactly if the stream is open, there is room for a packet, the endpoint is free and the controller takes it, and otherwise leaves the endpoint alone; then, for a power-of-two packet size, the whole packets that fit, at most the endpoint buffer |
| EdptStream.RxStream.XferComplete | src/common/tusb_private.h:148-153 | an armed transfer still fits when it completes; all of it is kept, in order, and the endpoint is armed again exactly if `ReadXfer` would arm a free one |
| EdptStream.RxStream.Read | src/tusb.c:449-453 | returns the oldest bytes received, the length cut to 16 bits; the endpoint is then armed exactly if it was free, there is now room for a packet and the controller takes it, and otherwise left alone |
| EdptStream.RunRx | src/tusb.c:425-453 | in every run the bytes read are a prefix of the bytes received and the rest is in the FIFO |
| EdptStream.TxStream.WriteXfer | src/tusb.c:382-404 | nothing from a closed or empty stream or to a taken endpoint; through an endpoint buffer what that holds leaves the FIFO, and is sent if accepted; without one all is left for the controller to fetch |
| EdptStream.TxStream.Write | src/tusb.c:406-416 | stores what fits of the length cut to 16 bits, and submits exactly if a packet is then there or can never be |
| EdptStream.SentInOrderExactly | src/tusb.c:382-416 | over any run of writes, flushes and completions, what was passed on and what waits is what was written if and only if no buffered transfer was refused |
| EdptStream.RunTx | src/tusb.c:382-416 | every run of the stream is such a run, so the same holds of the stream itself |
| EdptStream.RefusedRun | src/tusb.c:393-396 | a run from the start in which two of three bytes are lost |
| ControlEp0.Engine.ReplyWith | src/device/usbd.c:874-892 | the reply is cut to the requested length; no data stage for a request of none |
| ControlEp0.Engine.SentIn | src/device/usbd.c:895-951 | next piece, status stage or stall, by the length sent and the class driver's answer |
| ControlEp0.Engine.ReceivedOut | src/device/usbd.c:895-951 | stores a packet behind the last, clamped to the buffer, and decides what follows |
| ControlEp0.PacketsCarry | src/device/usbd.c:851-951 | the packets of a control read carry the reply in order |
| ControlEp0.PacketsFill | src/device/usbd.c:851-951 | all but the last fill the endpoint buffer |
| ControlEp0.ZeroLengthPacketExactly | src/device/usbd.c:895-951 | a zero-length packet ends them if and only if the reply is shorter than asked for and fills its packets exactly |
| ControlEp0.ControlRead | src/device/usbd.c:840-951 | a control read submits exactly those packets and then one status stage in the other direction, or a stall |
| ControlEp0.ControlWrite | src/device/usbd.c:840-951 | a control write stores the host's packets in order and nothing beyond `data_len`, whatever the host sends; before each packet it submits just the room left, and after the one that completes or cuts short the data stage exactly one status stage or a stall |
| SetupCounter.CountNeverTooHigh | src/device/usbd.c:720-727 | over every interleaving with drops and resets, and with the handler between load and store of the decrement, the counter never exceeds the SETUPs waiting and never underflows |
| SetupCounter.ExactStep | src/device/usbd.c:644-648 | an exact count is lost by a step if and only if it stores a count behind which a SETUP has arrived, or clears it while a SETUP waits behind the reset |
| SetupCounter.ExactIffUndisturbed | src/device/usbd.c:720-727 | the counter equals the SETUPs waiting all through a run if and only if no SETUP is queued between a load and its store and none waits behind a reset when that is handled |
| SetupCounter.ServedIffNewest | src/device/usbd.c:720-746 | in such runs a SETUP is served if and only if no newer one is queued, and none is dropped for a zero count |
| SetupCounter.DroppedOnlyWhenFull | src/device/usbd.c:1456-1500 | an event is dropped if and only if the queue is full, and then nothing changes, the counter included |
| SetupCounter.TakenInOrder | src/device/usbd.c:684-692 | over every run, what the task took and what is queued are the events that arrived, in order |
| SetupCounter.WorksOnLastTaken | src/device/usbd.c:720-746 | whatever the task holds, tests, counts down or decides on is the event it took last |
| SetupCounter.SetupBehindResetIsLost | src/device/usbd.c:644-648 | a run in which the only SETUP is dropped |
| SetupCounter.SetupDuringCountDownIsLost | src/device/usbd.c:724-728 | a run without a reset in which the older SETUP is served while the newer is queued, and the newer is then dropped |
| HostControl.Host.constructor | src/host/usbh.c:203-212 | an idle host |
| HostControl.Host.Submit | src/host/usbh.c:885-934 | accepted exactly for a connected address, by a free slot that sends or by room in the FIFO; otherwise nothing is left behind |
| HostControl.Host.Complete | src/host/usbh.c:1042-1066 | the slot is free before the callback runs; the callback, with whatever it submits and aborts, runs once |
| HostControl.Host.Callback | src/host/usbh.c:1042-1066 | whatever callbacks do, running the host from inside and closing devices included, keeps all invariants and terminates |
| HostControl.Host.Act | src/host/usbh.c:885-1191 | so does everything else the host is made to do, and each action has its effect: which transfer ends and how, whether one is accepted, which address is gone |
| HostControl.Host.Abort | src/host/usbh.c:1178-1191 | completes the transfer in the slot as aborted, exactly if it is for that address |
| HostControl.Host.Dispatch | src/host/usbh.c:999-1040 | entries leave in order until one is on its way or none is left; while callbacks do nothing, every entry before the first that can be sent (generation present, controller takes it) ends as failed, in order, that one is in the slot with exactly its packet sent, and the rest waits; without such an entry all end as failed; whatever callbacks do, the first is sent exactly if it can be |
| HostControl.Host.Launch | src/host/usbh.c:1003-1036 | the oldest entry is sent exactly if its generation is the present one and the controller takes it |
| HostControl.Host.Event | src/host/usbh.c:1068-1156 | stale completions change nothing; stages advance; a failure is retried or completes; every other end completes once |
| HostControl.Host.Retry | src/host/usbh.c:1087-1105 | a retry goes back to SETUP and is counted; a refused one completes as failed |
| HostControl.Host.Close | src/host/usbh.c:391-414 | the transfer in flight to a closed address completes as failed; the generation moves by one and the address is gone |
| HostControl.Host.BeginClose | src/host/usbh.c:391-404 | the generation moves before that callback runs |
| HostControl.Host.EndClose | src/host/usbh.c:1639-1640 | the device is gone only after it |
| HostControl.Run | src/host/usbh.c:885-1191 | every run, with whatever happens inside callbacks, ends in a sound state |
| HostControl.ExactlyOnePlace | src/host/usbh.c:885-1156 | a consistent placing has every transfer in exactly one of slot, FIFO and finished, once |
| HostControl.Accounted | src/host/usbh.c:885-1156 | in every sound state each accepted transfer is in exactly one place, its callback ran at most once, at most four SETUP packets went out for it, none while queued; one finished unsent has failed, and was stale or refused by the controller |
| HostControl.ClosedWhileQueued | src/host/usbh.c:923-1040 | in every sound state, a transfer whose address was closed 1 to 255 times before it left the FIFO has had no packet sent, and waits or has ended as failed |
| HostControl.LaunchedExactly | src/host/usbh.c:1025-1027 | an entry may be sent if and only if its address was closed a multiple of 256 times since |
| HostControl.SentToItsDevice | src/host/usbh.c:391-404 | every packet of a sound state that was sent fewer than 256 closes after its transfer was accepted was sent before any of them; it reached its own device if and only if no close under way at the acceptance was through by then |
| HostControl.ClosingWindow | src/host/usbh.c:391-404 | a run in which a transfer accepted during a close is sent to the next device at the address |
| DeviceTree.Scan | src/host/usbh.c:1610-1642 | one pass closes exactly the matching devices and marks the hubs among them |
| DeviceTree.NextHub | src/host/usbh.c:1644-1660 | takes the first marked hub, or none |
| DeviceTree.RemoveTree | src/host/usbh.c:1603-1666 | terminates and closes, each once, exactly the devices that are unplugged: connected on the root port, with a chain of connected hubs leading up to one on the hub address and port unplugged (0: any); all others are untouched |
| DeviceTree.LeastIsUnplugged | src/host/usbh.c:1603-1666 | the least set that holds the matching devices and everything behind a hub in it is the set of devices with such a chain |
| LaConfig.Configure | src/logic_analyzer_bridge.c:111-143 | any sequence of settings leaves a configuration that can be started, and none changes anything while the analyser is busy |
| LaConfig.Config.UpdateChannels | src/logic_analyzer_bridge.c:93-109 | the channels of the mask in ascending order and the narrowest width that shows them all |
| LaConfig.Config.SetChannelMask | src/logic_analyzer_bridge.c:133-143 | only a non-empty mask of existing channels, only while idle |
| LaStream.Start | src/logic_analyzer_bridge.c:382-438 | any accepted configuration starts a sound, empty stream on a zeroed buffer |
| LaStream.Stream.ProducedBytes | src/logic_analyzer_bridge.c:325-353 | its value, however late the interrupt: never ahead of DMA, never back, exact when the interrupt has caught up and no sample is half written |
| LaStream.Stream.Choose | src/logic_analyzer_bridge.c:446-459 | the chunk taken is produced and not lapped by what is produced, every chunk skipped is lapped, and the skipped ones are counted |
| LaStream.Stream.Take | src/logic_analyzer_bridge.c:440-477 | hands out a block exactly when one is due and none is outstanding, for the first chunk due that is not lapped, and keeps the account |
| LaStream.SkippedOnlyIfLapped | src/logic_analyzer_bridge.c:455-459 | at every delivery of a history, each chunk skipped had been lapped by what was produced, and the chunk due is the one handed out if and only if it had not |
| LaStream.Stream.Stop | src/logic_analyzer_bridge.c:485-494 | no block any more; the account stays |
| LaStream.ChunkIntactExactly | src/logic_analyzer_bridge.c:460-464 | the buffer holds a chunk in its place if and only if it is written and DMA has not come round |
| LaStream.Stream.BlockHolds | src/logic_analyzer_bridge.c:460-475 | until then the block taken holds bytes `[c*chunk, (c+1)*chunk)` of the sampled stream |
| LaStream.Stream.ExactBlockHolds | src/logic_analyzer_bridge.c:325-353 | in particular whenever the produced count was exact |
| LaStream.Stream.BlockIntactExactly | src/logic_analyzer_bridge.c:460-475 | the block taken is intact if and only if DMA has not come round to it; so never when the count is a whole pass behind |
| LaStream.LateTake | src/logic_analyzer_bridge.c:340-349 | a run from the start: three chunks into a buffer of two, no interrupt yet, chunk 0 is handed out and its place holds chunk 2 |
| LaStream.GapsAreReported | src/logic_analyzer_bridge.c:455-475 | chunk numbers strictly increase; first samples of consecutive blocks are apart by (1 + newly reported overruns) blocks, modulo 2^64 |
| LaStream.GaplessAt | src/logic_analyzer_bridge.c:466-475 | each block's sequence number is the number of blocks before it plus the overruns it reports, modulo 2^32 |
| LaStream.Run | src/logic_analyzer_bridge.c:319-494 | over every run of sampling, interrupts, takes, releases and stops the account stays, and no chunk is skipped that was not lapped |
| LaModes.Analyser.CaptureChainRelease | src/logic_analyzer_bridge.c:282-291 | frees the block; a failed restart leaves the engine running without a capture |
| LaModes.Analyser.SingleCapture | src/main.cpp:153-160 | busy exactly if any mode is in use; otherwise started or refused with no flag left |
| LaModes.Analyser.ChainStart | src/main.cpp:161-171 | the same for the capture chain |
| LaModes.Analyser.ChainStop | src/main.cpp:172-178 | stops a capture under way; the waiting task clears its own flag |
| LaModes.Analyser.AnalysisStart | src/main.cpp:183-197 | the same for the chained analysis |
| LaModes.Analyser.AnalysisStop | src/main.cpp:198-204 | both layers idle; a block that waited is dropped |
| LaModes.Analyser.StreamStart | src/main.cpp:116-132 | the same for the stream |
| LaModes.Analyser.StreamStop | src/main.cpp:134-139 | both layers idle; a block that waited is dropped |
| LaModes.Analyser.SingleTask | src/main.cpp:259-277 | a capture that ended clears both layers, with a result exactly if it was not stopped |
| LaModes.Analyser.ChainCollect | src/main.cpp:279-307 | collects a chained capture and starts the next; afterwards a capture is pending exactly if the old one still runs or the enabled chain was due and started; a stopped chain leaves nothing behind |
| LaModes.Analyser.AnalysisTask | src/main.cpp:308-316 | a block is released to the engine it was taken from, exactly when it was sent |
| LaModes.Analyser.ChainTask | src/main.cpp:279-317 | the whole poll: which capture is pending, which block was taken and whether it was sent; a stalled chain stays as it is |
| LaModes.Analyser.StreamTask | src/main.cpp:319-337 | the same for stream blocks |
| LaModes.Analyser.Handle | src/main.cpp:141-337 | every command and poll keeps the modes exclusive and the two layers in agreement |
| LaModes.Run | src/main.cpp:141-337 | from power-on, over every order of commands and polls: at most one mode, flags equal in both layers, every block taken sent or dropped once, in order |
| LaModes.Quiesce | src/main.cpp:172-226 | the stop commands and one round of polls leave every mode idle, from any reachable state |
| LaModes.StallLasts | src/logic_analyzer_bridge.c:282-291 | once stalled, no block and no other mode until the analysis is stopped |
| DhcpOptions.Find | lib/networking/dhserver.c:148-160 | on any bytes, an option returned lies wholly inside the area |
| DhcpOptions.FindOption | lib/networking/dhserver.c:148-160 | the loop terminates on any bytes and computes `Find` |
| DhcpOptions.FillOptions | lib/networking/dhserver.c:162-228 | writes the configured options one after the other and the end mark, and nothing else |
| DhcpOptions.FindUndoesFill | lib/networking/dhserver.c:148-228 | the reader returns exactly the value of each option written |
| DhcpOptions.FindNothingElse | lib/networking/dhserver.c:148-228 | and none for any other code, except 255 and 0 where the padding leaves room |
| DhcpOptions.ServerCodes | lib/networking/dhserver.c:162-228 | the server's options have distinct codes, none of them 0 or 255, so the two laws above apply |
| DhcpOptions.ServerSizes | lib/networking/dhserver.c:162-228 | the options fit the 275-byte area for every domain of at most 239 bytes |
| DhcpOptions.ReplyTells | lib/networking/dhserver.c:162-228 | the reader finds in the area, by code: 53 the message type, 51 the lease, 54 the server, 1 the netmask, and, if configured, 3 the router, 6 the DNS server, 15 the domain; none of the last three otherwise |
| DhcpOptions.Be32Complete | lib/networking/dhserver.c:162-228 | the lease time is written without losing a bit |
| DhcpLease.HandleKeepsOneEach | lib/networking/dhserver.c:340-384 | no message gives a client a second entry |
| DhcpLease.HandleAndHolder | lib/networking/dhserver.c:340-384 | an acknowledged address was free or the client's own; only its own REQUEST takes an address from a client |
| DhcpLease.OfferIsProper | lib/networking/dhserver.c:310-338 | a client with an entry is offered its own address, any other the first vacant one; silence means there is none |
| DhcpLease.AckIsProper | lib/networking/dhserver.c:340-384 | a REQUEST is acknowledged if and only if it can be sent and the first entry with the address is vacant or the client's; what is acknowledged, and what becomes of every entry |
| DhcpLease.HandleIsProper | lib/networking/dhserver.c:300-384 | so every message is answered as it should be, and who is acknowledged holds the address |
| DhcpLease.HistoryIsProper | lib/networking/dhserver.c:286-390 | at every point of any history |
| DhcpLease.HistoryKeepsOneEach | lib/networking/dhserver.c:286-390 | no client holds two entries after any history |
| DhcpLease.StillHolds | lib/networking/dhserver.c:286-390 | an acknowledged client holds its address until it sends a REQUEST |
| DhcpLease.NoTakeover | lib/networking/dhserver.c:286-390 | in every history, an address acknowledged to one client is acknowledged to another only after the first sent a REQUEST |
| DhcpServer.Server.EntryByMac | lib/networking/dhserver.c:120-141 | the first entry with this hardware address, or the first vacant one |
| DhcpServer.Server.EntryByIp | lib/networking/dhserver.c:111-118 | the first entry with this address |
| DhcpServer.Server.Compose | lib/networking/dhserver.c:314-331 | the message becomes the reply, options included |
| DhcpServer.Server.OnDiscover | lib/networking/dhserver.c:310-338 | offers what the lease table says, or stays silent |
| DhcpServer.Server.OnRequest | lib/networking/dhserver.c:340-384 | table and acknowledgement as the lease table says, which `DhcpLease.AckIsProper` spells out; the message becomes the acknowledgement, and is untouched if there is none |
| DhcpServer.ReadsDiscover | lib/networking/dhserver.c:300-310 | a DISCOVER among any distinct options is read as one |
| DhcpServer.ReadsRequest | lib/networking/dhserver.c:300-347 | a REQUEST with an address is read as one, for that address |
| DhcpServer.ReadsNothingElse | lib/networking/dhserver.c:300-347 | distinct options with any other message type, or a REQUEST without an address, are ignored |
| DhcpServer.ReplyAnswers | lib/networking/dhserver.c:314-384 | a reply, byte by byte: a boot reply with the address given out and the magic cookie, the client's own fields kept, and under each option code its own value |
| DhcpServer.Server.Receive | lib/networking/dhserver.c:286-390 | any packet: the table changes and the answer goes out exactly as the lease table says of the message now in the buffer |
| DhcpServer.Serve | lib/networking/dhserver.c:286-390 | over any history of packets, short or malformed: each is read from the buffer the one before left; the table follows the messages read; each is answered just as it should be, offer, acknowledgement or silence; and no address is acknowledged to a second client before the first sent a REQUEST |

## Left out

- LaStream.Stream.Interrupt: the 32-bit pass count is not followed beyond 2^32 passes, where the produced count stops moving.
- LaStream.Start: assumes a capture buffer of at least two of the largest chunks; `CAPTURE_BUFFER_SIZE` is defined in a file that is not part of this model.
- EdptStream.RxStream.XferComplete: assumes the controller reports no more bytes than the transfer asked for, and that completion stores its bytes before arming again.
- FifoConcurrency.StepKeeps: assumes sequentially consistent index loads and stores; weak memory ordering is not modelled.
- HwFifo.HwPush: models strides 1, 2 and 4 without the optional narrower accesses for odd tails, and address strides that are 0 or whole words (0 or 1 for stride 1).
- ControlEp0.Engine.SentIn: the class driver's callback is reduced to its answer; vendor and standard requests are not dispatched.
- HostControl.Host.Submit: asynchronous transfers only; the waiting of a blocking transfer is not modelled, only what the host does meanwhile. Lengths and buffers of a transfer are not carried.
- HostControl.Host.Enqueue: the pending FIFO is a sequence of whole entries; that a byte FIFO of whole items never tears one is proved for the event queue only.
- SetupCounter.CountNeverTooHigh: for event queues of fewer than 255 entries (the default is 16); beyond, the 8-bit counter could wrap.
- EdptStream.TxStream.WriteXfer: without an endpoint buffer, the bytes the controller fetches by itself leave the FIFO in steps of their own; how it splits them into packets is not modelled.
- DhcpServer.Serve: where no packet buffer can be had for a reply, what the attempt leaves in the message buffer for the next packet is not stated.
- DeviceTree.RemoveTree: the callbacks of class drivers are assumed not to connect devices.
- LaModes.Analyser.CaptureChainTake: sample counts and first samples of chained blocks are not carried, only ownership and sequence numbers.
- Overwritable writes through a hardware FIFO, which the source marks as unfinished.
- Host enumeration, hubs, class drivers, USB descriptors and the class headers.
- GPIO, PIO, clock and DMA register setup; the sampler behind single captures.
- The WebSocket server, lwIP glue, text parsing of the SET commands, the DNS server and RNDIS reports.
- RTOS ports of the OS abstraction and board code.
- Tools and documentation.
