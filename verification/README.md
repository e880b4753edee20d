# Contiki on the SAM4E Xplained Pro: verified models of the packet path

The repository ports the Contiki operating system to a Cortex-M4 board with an Ethernet controller.
A packet travels between `uip_buf`, the packet buffer (`packetbuf.c`), the Ethernet framer and
network layer (`ieee8023_framer.c`, `ieee8023_net.c`), the driver with its list of pending frames
(`gmac-drv.c`) and the controller's two descriptor rings (`gmac_raw.c`). Beside that path are the
stores it leans on: queue buffers that swap to files (`queuebuf.c`), the shared neighbour table
(`nbr-table.c`), a FIFO of variable-length blocks in a byte array (`ringmem.c`), a lock-free byte
ring (`ringbuf32.c`) and the IPv6 address printer (`res-print-engine.c`).

Each module of this project models one of those files. A state is a datatype, an operation a
function on it that takes the branches of the C function, and the properties are lemmas about those
functions: invariants of every step, refinement of a simple abstract object over every run, round
trips and conservation laws. The C functions themselves, with their fields, arrays and loops, are
methods of a class whose contracts tie the object's state to those functions.

| module | source | simple object it is proved against |
|---|---|---|
| `GmacRx` | `gmac_raw.c`, receive | the frames lying in a list of descriptors |
| `GmacRxRun` | `gmac_raw.c`, receive, over whole runs | a queue of frames |
| `GmacRxLoss` | `gmac_raw.c`, receive | the complete frames of a list |
| `GmacTx` | `gmac_raw.c`, transmit | a queue of frames |
| `GmacDrv` | `gmac-drv.c` and the handler | one callback per call, frames on the wire in call order |
| `QueueBuf` | `queuebuf.c` with swapping | a map from live buffers to packets |
| `NbrTable` | `nbr-table.c` | one partial map per table |
| `RingMem` | `ringmem.c` | a queue of byte sequences |
| `RingBuf32` | `ringbuf32.c` | a queue of bytes, under every interleaving |
| `PacketBuf` | `packetbuf.c` | header ++ data |
| `Ethernet` | `ieee8023_framer.c`, `ieee8023_net.c` | the packet that was sent |
| `DataPath` | the above together | the packet that was sent |
| `AddrPrint` | `res-print-engine.c` | a parser for section 2.2 of RFC 4291 |

`dafny verify dfyconfig.toml` checks the whole project.

## Conventions

* Hardware, interrupt, tx and poll are atomic steps of one state machine; put and get of
  `ringbuf32.c` are taken apart into their single loads and stores.
* Descriptor status words are records of their fields; buffers are byte sequences of their fixed
  size. Bitmaps are 8-bit vectors in the class and sets of tables in the specification.
* MEMB hands out some free element while it has one; LIST appends at the tail and removes; the
  next of NULL is NULL; CFS is an array of slots, and its operations succeed.
* Loading a buffer whose id is -1 seeks to a negative offset, which fails; the read that follows
  leaves anything in the cache.
* The controller sends transmit descriptors up to the first one marked LAST as one frame, and does
  not write the WRAP bit of a receive descriptor.
* A pointer stored in the union of `ram_ptr` and `swap_id` never reads as an id or as -1.
* A callback of the neighbour table touches at most the bits of its own table; in a run
  `nbr_table_lock` is called on items in the table.

## Where the code does less than its documentation

The model follows the code; these lemmas say exactly when the documented behaviour holds.

* `gmac_dev_read`: after discarding a fragment the descriptor pointer is left on the last one
  discarded, so the copy starts one descriptor early. Exactly the lists in which no new frame
  starts while one is open are free of it (`CopiesOwnBuffersIffUncut`). Such a call can hold a
  complete frame up (`CutFrameIsDelayed`) or give it back for good (`CutFrameIsLost`, and exactly
  when: `LosesIff`).
* `gmac_dev_write`: the full-ring test adds the head twice to the descriptor list and, in the upper
  half of the list, reads beyond it (`WriteQueuesIffFullIsNoticed`). A full ring that is not noticed
  has its spare descriptor filled and is taken for empty (`Overrun`); with the configured three
  descriptors an ordinary run gets that far (`ThreeDescriptorsOverrun`). Calls and pool elements
  stay accounted for even then, but the list never gets rid of that many unacknowledged elements
  again (`OverrunsKeepAccounts`).
* `ringbuf32.c` promises any power-of-two size, but stores the put pointer through a one-byte
  access macro; if that store is one byte wide the promise holds exactly up to size 256
  (`FifoIffPointerFits`, `LosesAFullPage`).
* The framer documents a filter on two address bytes and tests the first one twice
  (`FilterFollowsRuleIff`).
* The size test in `output` compares a negated value and never stops a packet; a packet that leaves
  no room for the header is stopped by the header allocation instead (`FrameIffFits`).
* `packetbuf_hdrlen` returns `bufptr`, the header's length of an inbound packet, in one byte:
  `packetbuf_totlen` is right exactly below 256 (`InboundLengthIff`). Against header ++ data it is
  right once a header has been allocated, or when that byte is zero (`TotLenIsLengthIff`).
* `queuebuf_update_from_packetbuf` ignores a failed flush. The update can then be read only while
  the cache stays as it is: the id -1 matches the cache's -1, and other buffers' loads and stores
  lose it (`UpdateStaysIff`, reached in `ReachesLostUpdate`). When the cache stands for a
  freed buffer, an update of a live one without an id charges a slot to the freed record
  (`UpdateKeepsUsageExactIff`, reached in `ReachesUnsafeUpdate`). Ids and contents stay right, but
  that slot is never given back, and once the allocator has come round to its file every flush is
  refused (`StuckForGood`, reached in `ReachesStuck`).

## Model

| member | source | states |
|---|---|---|
| `GmacRx.DeliversFrame` | Contiki_Port_SAM4EXPRO_15/contiki/cpu/ATSAM/ATSAM4E16E/drivers/gmac/gmac_raw.c:385-479 | For every list size, start and contents: j owned fragments without a start of frame are skipped and the k-descriptor frame behind them (k < N) is reported with the length of its last status word; the frame buffer holds the first bytes of its buffers and is otherwise unchanged, exactly j + k descriptors are given back, and the status is OK exactly when everything fitted |
| `GmacRx.KeepsBeginning` | Contiki_Port_SAM4EXPRO_15/contiki/cpu/ATSAM/ATSAM4E16E/drivers/gmac/gmac_raw.c:385-479 | When only the beginning of a frame has arrived the call reports no data, keeps that frame's descriptors owned and leaves us_rx_idx on the first of them |
| `GmacRx.LaterCallDelivers` | Contiki_Port_SAM4EXPRO_15/contiki/cpu/ATSAM/ATSAM4E16E/drivers/gmac/gmac_raw.c:385-479 | A later call, after the controller has written only descriptors it owned, reports that frame whole, including the part the earlier call had already seen |
| `GmacRx.DropsFragments` | Contiki_Port_SAM4EXPRO_15/contiki/cpu/ATSAM/ATSAM4E16E/drivers/gmac/gmac_raw.c:468-478 | Owned descriptors with no start among them are all given back, without data and without touching the frame buffer |
| `GmacRx.FullTurnIsError` | Contiki_Port_SAM4EXPRO_15/contiki/cpu/ATSAM/ATSAM4E16E/drivers/gmac/gmac_raw.c:424-435 | A list filled by one frame that has not ended before its last descriptor is given back completely, with an error |
| `GmacRx.GivesBackAPrefix` | Contiki_Port_SAM4EXPRO_15/contiki/cpu/ATSAM/ATSAM4E16E/drivers/gmac/gmac_raw.c:385-479 | For every list: what is given back is a run of owned descriptors from us_rx_idx on; a reported frame starts inside it at a start of frame; with no report it ends where the open frame starts |
| `GmacRx.CopiesOwnBuffersIffUncut` | Contiki_Port_SAM4EXPRO_15/contiki/cpu/ATSAM/ATSAM4E16E/drivers/gmac/gmac_raw.c:404-446 | For every list the buffers copied are the reported frame's own, in order, if and only if no new frame starts while one is open; otherwise the copy starts one descriptor early, because the discard loop leaves the descriptor pointer behind |
| `GmacRx.ReportsWhatItCopied` | Contiki_Port_SAM4EXPRO_15/contiki/cpu/ATSAM/ATSAM4E16E/drivers/gmac/gmac_raw.c:404-466 | For every list, cut frames included: the frame buffer begins with the buffers copied, as far as they fit; a frame is reported at the end mark of the last buffer copied, with that descriptor's length, and OK exactly when all of it fitted; without a report the size is 0 |
| `GmacRx.OffIffCut` | Contiki_Port_SAM4EXPRO_15/contiki/cpu/ATSAM/ATSAM4E16E/drivers/gmac/gmac_raw.c:404-446 | The same from any point inside a frame onward |
| `GmacRxLoss.LosesIff` | Contiki_Port_SAM4EXPRO_15/contiki/cpu/ATSAM/ATSAM4E16E/drivers/gmac/gmac_raw.c:403-478 | For every list: a call gives the start of a complete frame back without reporting that frame if and only if one frame fills the whole list, or the first complete frame behind one cut short has several buffers, or has one buffer and is followed by another complete frame, or by a descriptor that is no start and then a start or an end |
| `GmacRxLoss.CutFrameIsLost` | Contiki_Port_SAM4EXPRO_15/contiki/cpu/ATSAM/ATSAM4E16E/drivers/gmac/gmac_raw.c:404-457 | A concrete list: of two complete one-buffer frames behind a start the first is reported and the second is given back without having been copied |
| `GmacRxLoss.CutFrameIsDelayed` | Contiki_Port_SAM4EXPRO_15/contiki/cpu/ATSAM/ATSAM4E16E/drivers/gmac/gmac_raw.c:404-446 | A concrete list: a single complete one-buffer frame behind a start is not reported by this call, is not lost, and is reported by the next call |
| `GmacRxLoss.OffLoses` | Contiki_Port_SAM4EXPRO_15/contiki/cpu/ATSAM/ATSAM4E16E/drivers/gmac/gmac_raw.c:404-466 | The condition from any start found while a frame was open |
| `GmacRx.RxRing.ResetRxMem` | Contiki_Port_SAM4EXPRO_15/contiki/cpu/ATSAM/ATSAM4E16E/drivers/gmac/gmac_raw.c:195-218 | Afterwards every descriptor belongs to the controller, exactly the last one wraps, and the index is 0 |
| `GmacRx.RxRing.CircInc` | Contiki_Port_SAM4EXPRO_15/contiki/cpu/ATSAM/ATSAM4E16E/drivers/gmac/gmac_raw.c:150-156 | The index one step on around the list |
| `GmacRx.RxRing.DevRead` | Contiki_Port_SAM4EXPRO_15/contiki/cpu/ATSAM/ATSAM4E16E/drivers/gmac/gmac_raw.c:385-479 | The nested loops over the descriptor array compute the specification: status, size, frame buffer and the new us_rx_idx; exactly the descriptors given back lose their ownership bit, and no descriptor changes in its wrap bit, marks, length or buffer; a null frame pointer changes nothing |
| `GmacRx.RxRing.GatherFrame` | Contiki_Port_SAM4EXPRO_15/contiki/cpu/ATSAM/ATSAM4E16E/drivers/gmac/gmac_raw.c:402-478 | The outer loop, which ends on every list |
| `GmacRx.RxRing.Examine` | Contiki_Port_SAM4EXPRO_15/contiki/cpu/ATSAM/ATSAM4E16E/drivers/gmac/gmac_raw.c:403-475 | One turn of it, against one step of the specification |
| `GmacRx.RxRing.ReleaseUpTo` | Contiki_Port_SAM4EXPRO_15/contiki/cpu/ATSAM/ATSAM4E16E/drivers/gmac/gmac_raw.c:407-412 | A release loop gives back exactly the descriptors between the two indices and leaves the pointer on the last of them |
| `GmacRx.RxRing.ReleaseWholeTurn` | Contiki_Port_SAM4EXPRO_15/contiki/cpu/ATSAM/ATSAM4E16E/drivers/gmac/gmac_raw.c:426-432 | The do-while loop gives back the whole list |
| `GmacRx.RxRing.DiscardFragment` | Contiki_Port_SAM4EXPRO_15/contiki/cpu/ATSAM/ATSAM4E16E/drivers/gmac/gmac_raw.c:404-418 | Discarding gives back everything before the new start; the pointer it leaves shows the contents of the descriptor before it |
| `GmacRx.RxRing.TakeBuffer` | Contiki_Port_SAM4EXPRO_15/contiki/cpu/ATSAM/ATSAM4E16E/drivers/gmac/gmac_raw.c:436-466 | One buffer is appended, clipped to the room left, and at an end of frame everything up to it is given back |
| `GmacRxRun.ReceiveIsFifo` | Contiki_Port_SAM4EXPRO_15/contiki/cpu/ATSAM/ATSAM4E16E/drivers/gmac/gmac_raw.c:385-479 | Over every run, from the reset list on, of descriptors filled by the controller and calls of gmac_dev_read with any buffers: the calls report the frames that arrived, each once, whole and in order, as a plain queue of frames does, and no data exactly when none is complete |
| `GmacRxRun.RunIsQueue` | Contiki_Port_SAM4EXPRO_15/contiki/cpu/ATSAM/ATSAM4E16E/drivers/gmac/gmac_raw.c:385-479 | The same from every state that holds a queue of frames and the beginning of another |
| `GmacRxRun.ReadKeepsInv` | Contiki_Port_SAM4EXPRO_15/contiki/cpu/ATSAM/ATSAM4E16E/drivers/gmac/gmac_raw.c:385-479 | One call takes the oldest frame out of the list, or changes nothing when none is complete |
| `GmacRxRun.ArrivalKeepsInv` | Contiki_Port_SAM4EXPRO_15/contiki/cpu/ATSAM/ATSAM4E16E/drivers/gmac/gmac_raw.c:385-479 | One descriptor filled between two calls extends the frame that is arriving, or completes it behind the others |
| `GmacRxRun.ReportsArrivals` | Contiki_Port_SAM4EXPRO_15/contiki/cpu/ATSAM/ATSAM4E16E/drivers/gmac/gmac_raw.c:385-479 | With buffers that hold every frame, the bytes that the calls of a run from the reset list on report are the first frames of those that arrived, in order, and every report is of a whole frame |
| `GmacRxRun.ReportsInOrder` | Contiki_Port_SAM4EXPRO_15/contiki/cpu/ATSAM/ATSAM4E16E/drivers/gmac/gmac_raw.c:385-479 | The same of the queue that stands for the ring, from any state of it |
| `GmacRxRun.ReceptionNeverJams` | Contiki_Port_SAM4EXPRO_15/contiki/cpu/ATSAM/ATSAM4E16E/drivers/gmac/gmac_raw.c:385-479 | Over every run from the reset list on, whatever marks and lengths the controller writes: the driver owns exactly the descriptors filled and not yet given back, every one of them is counted once, each report uses up at least one, a call on a completely owned list always gives some back, and exactly the physically last descriptor goes on carrying WRAP |
| `GmacRxRun.ReadKeepsOwnership` | Contiki_Port_SAM4EXPRO_15/contiki/cpu/ATSAM/ATSAM4E16E/drivers/gmac/gmac_raw.c:385-479 | One call on any list of which the driver owns exactly the first n descriptors: it gives back the first of these and goes on owning exactly the others |
| `GmacRxRun.FullGivesBack` | Contiki_Port_SAM4EXPRO_15/contiki/cpu/ATSAM/ATSAM4E16E/drivers/gmac/gmac_raw.c:424-435 | From any point of the outer loop, with every descriptor owned, some descriptor is given back |
| `GmacTx.CircTests` | Contiki_Port_SAM4EXPRO_15/contiki/cpu/ATSAM/ATSAM4E16E/drivers/gmac/gmac_raw.c:129-137 | Despite C's signed remainder CIRC_CNT is zero exactly on an empty ring and CIRC_SPACE exactly with N - 1 frames outstanding; CIRC_CNT is the count exactly when the head has not wrapped below the tail |
| `GmacTx.ResetIsEmpty` | Contiki_Port_SAM4EXPRO_15/contiki/cpu/ATSAM/ATSAM4E16E/drivers/gmac/gmac_raw.c:165-188 | The reset list satisfies the ring invariant (WRAP on the last descriptor only, all marked used), starts at the first descriptor and holds no frame |
| `GmacTx.WriteQueuesIffFullIsNoticed` | Contiki_Port_SAM4EXPRO_15/contiki/cpu/ATSAM/ATSAM4E16E/drivers/gmac/gmac_raw.c:513-568 | For every ring and frame: an accepted frame joins the unsent ones at the end, a refused one changes nothing and the ring invariant holds, if and only if a full ring is noticed by the test that indexes twice; which status is returned when |
| `GmacTx.WriteKeepsInv` | Contiki_Port_SAM4EXPRO_15/contiki/cpu/ATSAM/ATSAM4E16E/drivers/gmac/gmac_raw.c:536-563 | A frame written to a ring with space takes the head descriptor, byte for byte, marked as the last of its frame, and leaves every other one as it was |
| `GmacTx.TransmitSendsOldest` | Contiki_Port_SAM4EXPRO_15/contiki/cpu/ATSAM/ATSAM4E16E/drivers/gmac/gmac_raw.c:804-814 | The controller, which sends descriptors up to the first one marked LAST in one piece, sends exactly the oldest unsent frame and keeps the ring invariant, so completed frames stay a prefix of tail..head |
| `GmacTx.TxDevice.constructor` | Contiki_Port_SAM4EXPRO_15/contiki/cpu/ATSAM/ATSAM4E16E/drivers/gmac/gmac_raw.c:165-188 | gmac_reset_tx_mem on the descriptor array equals the reset list |
| `GmacTx.TxDevice.DevWrite` | Contiki_Port_SAM4EXPRO_15/contiki/cpu/ATSAM/ATSAM4E16E/drivers/gmac/gmac_raw.c:513-568 | gmac_dev_write on the arrays equals the specification, including the read past the list |
| `GmacDrv.TxKeepsInvIffFullIsNoticed` | Contiki_Port_SAM4EXPRO_15/contiki/platform/SAM4EXPRO/dev/ethernet/gmac-drv.c:241-290 | A tx call keeps pending list, pool, ring and history in step if and only if it does not reach a full ring unnoticed |
| `GmacDrv.Overrun` | Contiki_Port_SAM4EXPRO_15/contiki/platform/SAM4EXPRO/dev/ethernet/gmac-drv.c:257-268 | When it does, the ring is taken for empty while the list ends in as many unacknowledged elements as the ring has descriptors |
| `GmacDrv.TxTakesFrameIff` | Contiki_Port_SAM4EXPRO_15/contiki/platform/SAM4EXPRO/dev/ethernet/gmac-drv.c:241-269 | The ring takes a frame exactly when the pool has an element, the frame fits a 1518-byte transmit buffer and the full-ring test does not stop it |
| `GmacDrv.TxAnswers` | Contiki_Port_SAM4EXPRO_15/contiki/platform/SAM4EXPRO/dev/ethernet/gmac-drv.c:241-290 | For every state: the caller is answered MAC_TX_ERR at once exactly when the pool has an element, the frame has at most 1518 bytes, N - 1 frames are outstanding and the full-ring test reads a used bit; MAC_TX_ERR_FATAL exactly without an element or for a longer frame; and not at once exactly when the ring takes the frame |
| `GmacDrv.AcceptedFit` | Contiki_Port_SAM4EXPRO_15/contiki/cpu/ATSAM/ATSAM4E16E/drivers/gmac/gmac_raw.c:523-525 | Over every run no accepted frame is longer than a transmit buffer |
| `GmacDrv.InterruptKeepsInv` | Contiki_Port_SAM4EXPRO_15/contiki/cpu/ATSAM/ATSAM4E16E/drivers/gmac/gmac_raw.c:776-817 | The interrupt acknowledges one list element per completed descriptor: an acknowledged prefix and an unacknowledged suffix whose length is the number of frames between tail and head |
| `GmacDrv.HandlerLoopKeepsInv` | Contiki_Port_SAM4EXPRO_15/contiki/cpu/ATSAM/ATSAM4E16E/drivers/gmac/gmac_raw.c:799-817 | The handler's do-while loop, from any ring with a frame in it |
| `GmacDrv.CallbackKeepsStep` | Contiki_Port_SAM4EXPRO_15/contiki/platform/SAM4EXPRO/dev/ethernet/gmac-drv.c:61-108 | One transmit callback acknowledges the oldest unacknowledged element; there is one, as asserted |
| `GmacDrv.PollLoopReports` | Contiki_Port_SAM4EXPRO_15/contiki/platform/SAM4EXPRO/dev/ethernet/gmac-drv.c:373-408 | The poll loop reports exactly the acknowledged prefix, in order, and frees its pool elements |
| `GmacDrv.PollKeepsInv` | Contiki_Port_SAM4EXPRO_15/contiki/platform/SAM4EXPRO/dev/ethernet/gmac-drv.c:355-409 | The transmit half of the poll handler leaves only unacknowledged elements and keeps the invariant |
| `GmacDrv.StepKeepsInv` | Contiki_Port_SAM4EXPRO_15/contiki/platform/SAM4EXPRO/dev/ethernet/gmac-drv.c:241-409 | Every atomic step (tx, controller, interrupt, poll) keeps the invariant |
| `GmacDrv.RunKeepsInv` | Contiki_Port_SAM4EXPRO_15/contiki/platform/SAM4EXPRO/dev/ethernet/gmac-drv.c:241-409 | So does every run |
| `GmacDrv.TransmitConservation` | Contiki_Port_SAM4EXPRO_15/contiki/platform/SAM4EXPRO/dev/ethernet/gmac-drv.c:241-409 | Over every run from the reset state: calls answered and calls pending are together all calls made, each once; frames reported sent are in the order of the calls; frames on the wire and frames still in the ring are the accepted frames in order; no pool element is leaked |
| `GmacDrv.OverrunsKeepAccounts` | Contiki_Port_SAM4EXPRO_15/contiki/platform/SAM4EXPRO/dev/ethernet/gmac-drv.c:61-409 | Over every run, full rings met unnoticed included and whatever descriptors the controller marks: every call has had exactly one callback or is pending once, callbacks of accepted frames come in the order of the calls, the pool's slots in use are those of the list, a transmit callback finds an element to acknowledge and a poll one to report, as asserted; and each such full ring leaves as many elements unacknowledged for good as the ring has descriptors, all of them out of the pool |
| `GmacDrv.AnyStepAccounted` | Contiki_Port_SAM4EXPRO_15/contiki/platform/SAM4EXPRO/dev/ethernet/gmac-drv.c:61-409 | Every step of such a run |
| `GmacDrv.HandlerLoopTracks` | Contiki_Port_SAM4EXPRO_15/contiki/cpu/ATSAM/ATSAM4E16E/drivers/gmac/gmac_raw.c:799-817 | The handler's loop acknowledges one element per descriptor it passes, however many elements have been left behind |
| `GmacDrv.EveryCallIsAnswered` | Contiki_Port_SAM4EXPRO_15/contiki/platform/SAM4EXPRO/dev/ethernet/gmac-drv.c:355-409 | From every such state, once the controller has sent what the ring holds, one interrupt and one poll leave every call answered exactly once and the pool empty |
| `GmacDrv.ThreeDescriptorsOverrun` | Contiki_Port_SAM4EXPRO_15/contiki/platform/SAM4EXPRO/config/conf_eth.h:56 | With the configured three transmit descriptors an ordinary run reaches a full ring that the next write does not notice |
| `GmacDrv.Driver.DriverTx` | Contiki_Port_SAM4EXPRO_15/contiki/platform/SAM4EXPRO/dev/ethernet/gmac-drv.c:241-290 | gmac_driver_tx over the device object equals the tx step |
| `GmacDrv.Driver.AckFirst` | Contiki_Port_SAM4EXPRO_15/contiki/platform/SAM4EXPRO/dev/ethernet/gmac-drv.c:91-104 | The search loop marks the first unacknowledged element |
| `GmacDrv.Driver.DevHandler` | Contiki_Port_SAM4EXPRO_15/contiki/cpu/ATSAM/ATSAM4E16E/drivers/gmac/gmac_raw.c:799-817 | The TXCOMP part of gmac_handler with its callbacks equals the interrupt step, after full rings met unnoticed as well |
| `GmacDrv.Driver.ReportOne` | Contiki_Port_SAM4EXPRO_15/contiki/cpu/ATSAM/ATSAM4E16E/drivers/gmac/gmac_raw.c:801-816 | One turn of its loop |
| `GmacDrv.Driver.ReportAcked` | Contiki_Port_SAM4EXPRO_15/contiki/platform/SAM4EXPRO/dev/ethernet/gmac-drv.c:373-408 | The poll loop over the list equals its specification, and its not_found assertion holds |
| `GmacDrv.Driver.PollHandler` | Contiki_Port_SAM4EXPRO_15/contiki/platform/SAM4EXPRO/dev/ethernet/gmac-drv.c:355-409 | The transmit half of gmac_driver_pollhandler equals the poll step, with both assertions discharged, likewise |
| `QueueBuf.RenewalDiscardsNothing` | Contiki_Port_SAM4EXPRO_15/contiki/core/net/bk/queuebuf.c:140-157 | Renewing a renewable file keeps ids safe and changes the slot of no buffer that has an id |
| `QueueBuf.RemovalKeepsIdsSafe` | Contiki_Port_SAM4EXPRO_15/contiki/core/net/bk/queuebuf.c:173-191 | Giving an id back changes only the record that shows it, and keeps ids pairwise distinct, each file's usage at least the number of ids in it, and renewable files without an id |
| `QueueBuf.AllocationKeepsIdsSafe` | Contiki_Port_SAM4EXPRO_15/contiki/core/net/bk/queuebuf.c:194-210 | So does taking the next id: no record that counts shows it, and no such record's slot changes; given to the record of a freed buffer, the slot is charged to the file |
| `QueueBuf.AllocationRefusedIff` | Contiki_Port_SAM4EXPRO_15/contiki/core/net/bk/queuebuf.c:194-210 | -1 is returned exactly when the allocator is about to enter a file in which a live buffer has an id or a slot is charged to a freed one |
| `QueueBuf.FlushFindsSlotIff` | Contiki_Port_SAM4EXPRO_15/contiki/core/net/bk/queuebuf.c:214-239 | A flush fails exactly when the file to be entered counts a slot in use other than the buffer's own |
| `QueueBuf.FlushStores` | Contiki_Port_SAM4EXPRO_15/contiki/core/net/bk/queuebuf.c:214-239 | A flush writes tmpdata through to a fresh slot: afterwards the buffer holds it, or it has no id; only the record the cache stands for changes |
| `QueueBuf.LoadShowsContent` | Contiki_Port_SAM4EXPRO_15/contiki/core/net/bk/queuebuf.c:243-269 | Loading changes nothing but the cache and shows what the buffer holds |
| `QueueBuf.NewStores` | Contiki_Port_SAM4EXPRO_15/contiki/core/net/bk/queuebuf.c:307-367 | New stores the packet in RAM or in a slot; it fails exactly when all buffers have been handed out, or all of RAM has and the file to be entered counts a slot in use, and then takes nothing out of either pool; every other buffer stays as it was |
| `QueueBuf.UpdateStores` | Contiki_Port_SAM4EXPRO_15/contiki/core/net/bk/queuebuf.c:382-392 | For every live buffer: an update stores its packet in the buffer the cache stands for after the load, if that is live, or that buffer holds nothing, exactly when there is no slot for it; all other buffers keep theirs, and a slot is charged to the file exactly when the update is not safe |
| `QueueBuf.LoadableUpdate` | Contiki_Port_SAM4EXPRO_15/contiki/core/net/bk/queuebuf.c:382-392 | An update of a buffer that load finds stores its packet, or the buffer holds nothing, exactly when it is swapped and the file to be entered counts another slot |
| `QueueBuf.UpdateKeepsUsageExactIff` | Contiki_Port_SAM4EXPRO_15/contiki/core/net/bk/queuebuf.c:214-239 | For every live buffer: an update keeps every usage equal to the number of live ids if and only if it goes to a live buffer or the file to be entered counts a slot in use; otherwise the usage of that file becomes one more than its live ids |
| `QueueBuf.UpdateStaysIff` | Contiki_Port_SAM4EXPRO_15/contiki/core/net/bk/queuebuf.c:382-392 | Over every run from queuebuf_init on and for every live buffer: what an update stores then is read back after every further run that neither stores in the buffer nor frees it if and only if the buffer is in RAM, or load finds it and the file to be entered counts no other slot |
| `QueueBuf.UpdateIsLost` | Contiki_Port_SAM4EXPRO_15/contiki/core/net/bk/queuebuf.c:382-392 | Otherwise some further events on other buffers lose it |
| `QueueBuf.StoredStays` | Contiki_Port_SAM4EXPRO_15/contiki/core/net/bk/queuebuf.c:307-392 | What a new, an update or an attribute update has stored with success is read back after every further run that neither stores in that buffer nor frees it |
| `QueueBuf.OldBytesStay` | Contiki_Port_SAM4EXPRO_15/contiki/core/net/bk/queuebuf.c:370-379 | After an attribute update of a buffer that holds something and finds a slot, its old bytes with the new attributes are read back, likewise |
| `QueueBuf.NothingLeaks` | Contiki_Port_SAM4EXPRO_15/contiki/core/net/bk/queuebuf.c:307-416 | Over every run from queuebuf_init on: the buffers handed out are exactly those that a successful new has returned and no free has given back, each RAM element in use is one of theirs, and once all have been given back both pools are whole and the next new succeeds |
| `QueueBuf.LastOutRenewsIff` | Contiki_Port_SAM4EXPRO_15/contiki/core/net/bk/queuebuf.c:173-187 | A free marks a file for renewal exactly when it gives back the last slot counted in it and the allocator is elsewhere |
| `QueueBuf.TimerRenews` | Contiki_Port_SAM4EXPRO_15/contiki/core/net/bk/queuebuf.c:140-169 | The timer renews exactly the marked files: none is marked afterwards, their usage is 0 and their slots are gone, and nothing else changes |
| `QueueBuf.StuckForGood` | Contiki_Port_SAM4EXPRO_15/contiki/core/net/bk/queuebuf.c:173-210 | A slot charged to a freed buffer is never given back: once the allocator has come to its file, it stays there and refuses over every further run |
| `QueueBuf.ReachesLostUpdate` | Contiki_Port_SAM4EXPRO_15/contiki/core/net/bk/queuebuf.c:194-239 | From queuebuf_init, for every pool sizes with room for three swapped buffers, a run leads to a live buffer whose next update is lost |
| `QueueBuf.ReachesUnsafeUpdate` | Contiki_Port_SAM4EXPRO_15/contiki/core/net/bk/queuebuf.c:173-239 | Another run leads to a live buffer whose next update charges file 0 with a slot that no live buffer has |
| `QueueBuf.ReachesStuck` | Contiki_Port_SAM4EXPRO_15/contiki/core/net/bk/queuebuf.c:173-239 | A third leads to a state from which no run ever gets another slot, with a single swapped buffer around |
| `QueueBuf.UpdateAttrStores` | Contiki_Port_SAM4EXPRO_15/contiki/core/net/bk/queuebuf.c:370-379 | For every live buffer: an attribute update keeps the bytes that load shows and replaces the attributes, likewise |
| `QueueBuf.FreeForgets` | Contiki_Port_SAM4EXPRO_15/contiki/core/net/bk/queuebuf.c:395-416 | Free gives slot and id back and leaves every other buffer as it was |
| `QueueBuf.RenewalKeepsInv` | Contiki_Port_SAM4EXPRO_15/contiki/core/net/bk/queuebuf.c:161-169 | The renew timer is harmless at any time |
| `QueueBuf.StepKeepsInv` | Contiki_Port_SAM4EXPRO_15/contiki/core/net/bk/queuebuf.c:140-426 | Every operation on live buffers keeps id safety, cache coherence and the contents of a plain map from buffers to packets; what it charges to a file is exact |
| `QueueBuf.RunKeepsInv` | Contiki_Port_SAM4EXPRO_15/contiki/core/net/bk/queuebuf.c:140-426 | So does every run, and charges add up |
| `QueueBuf.ReadsLastStored` | Contiki_Port_SAM4EXPRO_15/contiki/core/net/bk/queuebuf.c:140-426 | Over every run of new, update, free, read and the renew timer from queuebuf_init on: live ids are pairwise distinct, renewing a file discards no live buffer, each file's usage is the number of its live ids plus the slots that updates of the run charged to freed buffers, and a live buffer that holds content reads back what was last stored in it, however loads, frees, renewals and slot reuse interleave |
| `QueueBuf.InitialHoldsNothing` | Contiki_Port_SAM4EXPRO_15/contiki/core/net/bk/queuebuf.c:280-294 | The state after queuebuf_init satisfies the invariant and holds nothing |
| `QueueBuf.QueueBuffers.constructor` | Contiki_Port_SAM4EXPRO_15/contiki/core/net/bk/queuebuf.c:280-294 | queuebuf_init establishes the invariant, with an empty store |
| `QueueBuf.QueueBuffers.QbufRenewAll` | Contiki_Port_SAM4EXPRO_15/contiki/core/net/bk/queuebuf.c:161-169 | The loop over the files equals the specification |
| `QueueBuf.QueueBuffers.QueuebufRemoveFromFile` | Contiki_Port_SAM4EXPRO_15/contiki/core/net/bk/queuebuf.c:173-191 | queuebuf_remove_from_file on the arrays |
| `QueueBuf.QueueBuffers.TakeSwapId` | Contiki_Port_SAM4EXPRO_15/contiki/core/net/bk/queuebuf.c:194-210 | get_new_swap_id on the arrays |
| `QueueBuf.QueueBuffers.FlushTmpdata` | Contiki_Port_SAM4EXPRO_15/contiki/core/net/bk/queuebuf.c:214-239 | queuebuf_flush_tmpdata on the arrays |
| `QueueBuf.QueueBuffers.LoadToRam` | Contiki_Port_SAM4EXPRO_15/contiki/core/net/bk/queuebuf.c:243-269 | queuebuf_load_to_ram: the content shown and the moved cache |
| `QueueBuf.QueueBuffers.NewFromPacketbuf` | Contiki_Port_SAM4EXPRO_15/contiki/core/net/bk/queuebuf.c:307-367 | What the two pools hand out, the new state, and the plain store extended exactly when it succeeds |
| `QueueBuf.QueueBuffers.UpdateFromPacketbuf` | Contiki_Port_SAM4EXPRO_15/contiki/core/net/bk/queuebuf.c:382-392 | The new state and the plain store, for every live buffer |
| `QueueBuf.QueueBuffers.UpdateAttrFromPacketbuf` | Contiki_Port_SAM4EXPRO_15/contiki/core/net/bk/queuebuf.c:370-379 | The new state and the plain store, for every live buffer |
| `QueueBuf.QueueBuffers.QueuebufFree` | Contiki_Port_SAM4EXPRO_15/contiki/core/net/bk/queuebuf.c:395-416 | The new state, and the plain store without the buffer; a pointer from outside the pool changes nothing |
| `QueueBuf.QueueBuffers.ReadBack` | Contiki_Port_SAM4EXPRO_15/contiki/core/net/bk/queuebuf.c:419-426 | What a read returns is what the plain store holds; a pointer from outside the pool reads nothing |
| `NbrTable.FindIs` | Contiki_Port_SAM4EXPRO_15/contiki/core/net/bk/nbr-table.c:121-138 | A neighbour is found exactly when it is listed under the address |
| `NbrTable.EmptyInv` | Contiki_Port_SAM4EXPRO_15/contiki/core/net/bk/nbr-table.c:61-76 | The tables with no neighbour satisfy the invariant |
| `NbrTable.NbrTables.constructor` | Contiki_Port_SAM4EXPRO_15/contiki/core/net/bk/nbr-table.c:61-76 | Empty pool, empty list and cleared bitmaps over the registered tables: a valid object with no neighbour, for any number of neighbours |
| `Pools.MembAlloc` | Contiki_Port_SAM4EXPRO_15/contiki/core/net/bk/nbr-table.c:179-181 | memb_alloc's contract: a free element, and one exactly while not all have been handed out |
| `NbrTable.VictimFollowsPolicy` | Contiki_Port_SAM4EXPRO_15/contiki/core/net/bk/nbr-table.c:189-217 | The scan picks the first key in insertion order among the unlocked neighbours used by fewest tables, in spite of the early break, and none exactly when all are locked |
| `NbrTable.ScanFindsVictim` | Contiki_Port_SAM4EXPRO_15/contiki/core/net/bk/nbr-table.c:189-217 | The same from any point of the scan |
| `NbrTable.VictimIsUnique` | Contiki_Port_SAM4EXPRO_15/contiki/core/net/bk/nbr-table.c:180-186 | The documented policy names one neighbour |
| `NbrTable.CallsBackUsersOnce` | Contiki_Port_SAM4EXPRO_15/contiki/core/net/bk/nbr-table.c:221-231 | Called back are exactly the registered tables that use the victim, once each, in table order |
| `NbrTable.EvictionUnlists` | Contiki_Port_SAM4EXPRO_15/contiki/core/net/bk/nbr-table.c:232-235 | An eviction removes the neighbour from every table and changes nothing else |
| `NbrTable.AddRefines` | Contiki_Port_SAM4EXPRO_15/contiki/core/net/bk/nbr-table.c:291-331 | Add fails, unchanged, exactly when the address is unknown, the pool is full and all neighbours are locked; it evicts exactly when some neighbour is not locked instead; otherwise the item is there and zeroed and nothing but an evicted address has changed |
| `NbrTable.RemoveForgets` | Contiki_Port_SAM4EXPRO_15/contiki/core/net/bk/nbr-table.c:342-348 | Remove takes the item out of its own table only and unlocks it there |
| `NbrTable.WriteShows` | Contiki_Port_SAM4EXPRO_15/contiki/core/net/bk/nbr-table.c:334-339 | A write through an item shows under that table and address only |
| `NbrTable.StepRefines` | Contiki_Port_SAM4EXPRO_15/contiki/core/net/bk/nbr-table.c:291-370 | Every operation acts on each (table, address) pair as on a plain partial map, and keeps keys and addresses distinct, used bits on listed keys, and locked bits within used bits |
| `NbrTable.TablesRefineMaps` | Contiki_Port_SAM4EXPRO_15/contiki/core/net/bk/nbr-table.c:172-370 | So does every run |
| `NbrTable.NoStaleData` | Contiki_Port_SAM4EXPRO_15/contiki/core/net/bk/nbr-table.c:230-339 | After every run from empty tables, whatever is visible under (table, address) was zeroed by the latest add of that very pair and holds what was written under that pair since; nothing of an evicted neighbour shows through |
| `NbrTable.ListKeepsOrder` | Contiki_Port_SAM4EXPRO_15/contiki/core/net/bk/nbr-table.c:291-331 | Over every run the list has the addresses in the order in which they were first added, less those evicted since |
| `NbrTable.LocksFollowCalls` | Contiki_Port_SAM4EXPRO_15/contiki/core/net/bk/nbr-table.c:341-383 | Over every run a table holds a lock on a neighbour exactly when its last lock, unlock or remove of that item was a lock |
| `NbrTable.LockedSurvives` | Contiki_Port_SAM4EXPRO_15/contiki/core/net/bk/nbr-table.c:187-190 | Over every run a neighbour that a table has locked stays listed under its address and in that table until the table unlocks or removes it, whatever is added |
| `NbrTable.WalkMeetsUsedInOrder` | Contiki_Port_SAM4EXPRO_15/contiki/core/net/bk/nbr-table.c:264-288 | Walking head, next, next... ends and meets each neighbour used by the table exactly once, in insertion order, also with an empty list and unused leading keys |
| `NbrTable.NextIsFirstUsed` | Contiki_Port_SAM4EXPRO_15/contiki/core/net/bk/nbr-table.c:278-288 | next goes to the first later key the table uses |
| `NbrTable.ItemsAndIndices` | Contiki_Port_SAM4EXPRO_15/contiki/core/net/bk/nbr-table.c:86-104 | Index and item determine each other for every positive item size, and distinct indices have disjoint items |
| `NbrTable.BitmapUpdates` | Contiki_Port_SAM4EXPRO_15/contiki/core/net/bk/nbr-table.c:155-170 | Setting and clearing a bit of the 8-bit map changes membership of that table alone |
| `NbrTable.OnesCountsBits` | Contiki_Port_SAM4EXPRO_15/contiki/core/net/bk/nbr-table.c:198-205 | The number of ones is the number of tables |
| `NbrTable.CountTables` | Contiki_Port_SAM4EXPRO_15/contiki/core/net/bk/nbr-table.c:198-205 | The shift-and-test loop counts the tables in the bitmap |
| `NbrTable.NbrTables.IndexFromLladdr` | Contiki_Port_SAM4EXPRO_15/contiki/core/net/bk/nbr-table.c:121-138 | The list walk equals the lookup |
| `NbrTable.NbrTables.FindVictim` | Contiki_Port_SAM4EXPRO_15/contiki/core/net/bk/nbr-table.c:189-216 | The two nested loops compute the policy's choice |
| `NbrTable.NbrTables.NotifyUsers` | Contiki_Port_SAM4EXPRO_15/contiki/core/net/bk/nbr-table.c:221-231 | The callbacks made, also when a callback takes the item out of its own table meanwhile |
| `NbrTable.NbrTables.Evict` | Contiki_Port_SAM4EXPRO_15/contiki/core/net/bk/nbr-table.c:219-235 | The state after an eviction and the callbacks made |
| `NbrTable.NbrTables.AllocateKey` | Contiki_Port_SAM4EXPRO_15/contiki/core/net/bk/nbr-table.c:173-238 | nbr_table_allocate equals its specification |
| `NbrTable.NbrTables.GetFromLladdr` | Contiki_Port_SAM4EXPRO_15/contiki/core/net/bk/nbr-table.c:334-339 | An item is returned exactly for the addresses the table holds, and it is that neighbour's item |
| `NbrTable.NbrTables.NextItem` | Contiki_Port_SAM4EXPRO_15/contiki/core/net/bk/nbr-table.c:278-288 | The do-while loop equals the specification; the next of no item is none |
| `NbrTable.NbrTables.HeadItem` | Contiki_Port_SAM4EXPRO_15/contiki/core/net/bk/nbr-table.c:264-275 | nbr_table_head equals the specification, empty list included |
| `NbrTable.NbrTables.RemoveItem` | Contiki_Port_SAM4EXPRO_15/contiki/core/net/bk/nbr-table.c:342-348 | Both bits are cleared; no item, no change and 0 |
| `NbrTable.NbrTables.LockItem` | Contiki_Port_SAM4EXPRO_15/contiki/core/net/bk/nbr-table.c:351-359 | The locked bit is set, whether or not the table uses the item; the invariant holds when it does; no item, no change and 0 |
| `NbrTable.NbrTables.UnlockItem` | Contiki_Port_SAM4EXPRO_15/contiki/core/net/bk/nbr-table.c:362-370 | The locked bit is cleared; no item, no change and 0 |
| `NbrTable.NbrTables.AddLladdr` | Contiki_Port_SAM4EXPRO_15/contiki/core/net/bk/nbr-table.c:291-331 | The new state, the item returned and the callbacks made |
| `RingMem.AllocRefines` | Contiki_Port_SAM4EXPRO_15/contiki/core/lib/ringmem.c:69-103 | Alloc appends the block or changes nothing, and refuses exactly when no run of length + 2 unoccupied cells lies at the put end or, while not wrapped, at the start of the array |
| `RingMem.PeekRefines` | Contiki_Port_SAM4EXPRO_15/contiki/core/lib/ringmem.c:106-117 | In every reachable state the wrap fix-up in peek does nothing, the pointer is at the oldest block's exact length and bytes, and a_len equals size exactly when empty |
| `RingMem.FreeRefines` | Contiki_Port_SAM4EXPRO_15/contiki/core/lib/ringmem.c:120-145 | Free removes the oldest block |
| `RingMem.SpaceLaw` | Contiki_Port_SAM4EXPRO_15/contiki/core/lib/ringmem.c:69-144 | a_len plus the sum of length + 2 over the live blocks is size when not wrapped and wrap_ptr when wrapped |
| `RingMem.RunRefinesQueue` | Contiki_Port_SAM4EXPRO_15/contiki/core/lib/ringmem.c:69-145 | Every run from every reachable state is a run of a plain queue of byte sequences |
| `RingMem.RingMemIsFifo` | Contiki_Port_SAM4EXPRO_15/contiki/core/lib/ringmem.c:58-145 | From ringmem_init on, on any size, callers see a FIFO, and whenever it is empty the next alloc accepts exactly what fits the array up to the cap of 16383 bytes |
| `RingMem.PeekedBlockSurvives` | Contiki_Port_SAM4EXPRO_15/contiki/core/lib/ringmem.c:69-117 | A peeked block keeps its place and bytes through any number of later allocs and peeks |
| `RingMem.OccupiedCells` | Contiki_Port_SAM4EXPRO_15/contiki/core/lib/ringmem.c:69-144 | Which cells belong to live blocks, from the three pointers alone |
| `RingMem.RingBuffer.constructor` | Contiki_Port_SAM4EXPRO_15/contiki/core/lib/ringmem.c:58-66 | ringmem_init with its size cap |
| `RingMem.RingBuffer.StoreBlock` | Contiki_Port_SAM4EXPRO_15/contiki/core/lib/ringmem.c:53-55 | RINGMEM_STORE writes the length word and the bytes and nothing else |
| `RingMem.RingBuffer.Alloc` | Contiki_Port_SAM4EXPRO_15/contiki/core/lib/ringmem.c:69-103 | The new state, and the queue extended exactly when accepted |
| `RingMem.RingBuffer.GetNextBlockPtr` | Contiki_Port_SAM4EXPRO_15/contiki/core/lib/ringmem.c:106-117 | On a valid ring nothing changes and the pointer is at the oldest block, none exactly when empty |
| `RingMem.RingBuffer.FreeBlock` | Contiki_Port_SAM4EXPRO_15/contiki/core/lib/ringmem.c:120-145 | The oldest block leaves the queue |
| `RingBuf32.MaskIsRemainder` | Contiki_Port_SAM4EXPRO_15/contiki/core/lib/ringbuf32.c:67 | Masking with 2^k - 1 is the remainder by 2^k, for all numbers |
| `RingBuf32.MaskedDifference` | Contiki_Port_SAM4EXPRO_15/contiki/core/lib/ringbuf32.c:100-103 | (put - get) & mask in 32-bit arithmetic is the number of slots from get to put |
| `RingBuf32.ChecksAreExact` | Contiki_Port_SAM4EXPRO_15/contiki/core/lib/ringbuf32.c:63-91 | Whatever the other side is in the middle of, put is refused only at size - 1 bytes in the ring and get only at none |
| `RingBuf32.NeverOverwrites` | Contiki_Port_SAM4EXPRO_15/contiki/core/lib/ringbuf32.c:66 | The slot about to be written holds no byte still to be got |
| `RingBuf32.StepKeepsInv` | Contiki_Port_SAM4EXPRO_15/contiki/core/lib/ringbuf32.c:54-91 | Every single load or store of either side keeps the invariant |
| `RingBuf32.RunKeepsInv` | Contiki_Port_SAM4EXPRO_15/contiki/core/lib/ringbuf32.c:54-91 | So does every interleaving |
| `RingBuf32.FifoIffPointerFits` | Contiki_Port_SAM4EXPRO_15/contiki/core/lib/ringbuf32.c:54-103 | For every power-of-two size up to 2^31: all interleavings are FIFO (bytes got are a prefix of bytes put, and the count is exact) if and only if the put pointer is stored whole or the size is at most 256 |
| `RingBuf32.LosesAFullPage` | Contiki_Port_SAM4EXPRO_15/contiki/core/lib/ringbuf32.c:67 | With a larger ring and a one-byte store, 256 accepted bytes leave the ring looking empty |
| `RingBuf32.RingBuffer32.constructor` | Contiki_Port_SAM4EXPRO_15/contiki/core/lib/ringbuf32.c:45-51 | ringbuf32_init on a power-of-two size; valid when the pointer store fits |
| `RingBuf32.RingBuffer32.Put` | Contiki_Port_SAM4EXPRO_15/contiki/core/lib/ringbuf32.c:54-69 | One thread's put: refused exactly on a full ring, otherwise the byte is appended |
| `RingBuf32.RingBuffer32.Get` | Contiki_Port_SAM4EXPRO_15/contiki/core/lib/ringbuf32.c:72-91 | One thread's get: the oldest byte, or -1 exactly on an empty ring |
| `RingBuf32.RingBuffer32.CountElements` | Contiki_Port_SAM4EXPRO_15/contiki/core/lib/ringbuf32.c:100-103 | The number of bytes put and not yet got |
| `PacketBuf.ClearForgets` | Contiki_Port_SAM4EXPRO_15/contiki/core/net/bk/packetbuf.c:77-84 | A cleared buffer holds an empty packet without header, attributes or addresses |
| `PacketBuf.CopyToFits` | Contiki_Port_SAM4EXPRO_15/contiki/core/net/bk/packetbuf.c:137-167 | Copy-out gives the packet if it has at most PACKETBUF_SIZE bytes, and nothing of a longer one |
| `PacketBuf.CopyFromHolds` | Contiki_Port_SAM4EXPRO_15/contiki/core/net/bk/packetbuf.c:93-102 | After copy-in the packet is the given bytes, cut at PACKETBUF_SIZE |
| `PacketBuf.HeaderMoves` | Contiki_Port_SAM4EXPRO_15/contiki/core/net/bk/packetbuf.c:170-195 | Allocating a header leaves the packet behind the new room, and succeeds exactly when there is room below hdrptr and the packet, with what packetbuf_totlen miscounts, stays within PACKETBUF_SIZE; reducing takes bytes off the front of the data, and succeeds exactly when they are there; both keep the bounds and refuse without a change |
| `PacketBuf.CompactKeepsPacket` | Contiki_Port_SAM4EXPRO_15/contiki/core/net/bk/packetbuf.c:105-117 | Compaction keeps header, data and attributes and brings bufptr to 0 |
| `PacketBuf.TotLenIsLengthIff` | Contiki_Port_SAM4EXPRO_15/contiki/core/net/bk/packetbuf.c:223-241 | packetbuf_totlen is the packet's length if and only if a header has been allocated or the low byte of bufptr is zero |
| `PacketBuf.InboundLengthIff` | Contiki_Port_SAM4EXPRO_15/contiki/core/net/bk/packetbuf.c:223-241 | Of an inbound packet packetbuf_totlen counts the bytes from the start of the frame if and only if the header taken off is shorter than 256 bytes |
| `PacketBuf.WireIsPacket` | Contiki_Port_SAM4EXPRO_15/contiki/core/net/bk/packetbuf.c:205-241 | With bufptr 0 the packet lies in one piece at packetbuf_hdrptr |
| `PacketBuf.CopyOutAndIn` | Contiki_Port_SAM4EXPRO_15/contiki/core/net/bk/packetbuf.c:93-167 | Copying out and in again gives the same bytes |
| `PacketBuf.PacketBuffer.CopyIn` | Contiki_Port_SAM4EXPRO_15/contiki/core/net/bk/packetbuf.c:93-102 | packetbuf_copyfrom on the array |
| `PacketBuf.PacketBuffer.ShiftData` | Contiki_Port_SAM4EXPRO_15/contiki/core/net/bk/packetbuf.c:108-113 | The overlapping in-place shift moves every data byte to its new place and no other |
| `PacketBuf.PacketBuffer.CompactInPlace` | Contiki_Port_SAM4EXPRO_15/contiki/core/net/bk/packetbuf.c:105-117 | packetbuf_compact keeps header ++ data |
| `PacketBuf.PacketBuffer.CopyOut` | Contiki_Port_SAM4EXPRO_15/contiki/core/net/bk/packetbuf.c:137-167 | packetbuf_copyto writes header ++ data, or nothing when too long |
| `PacketBuf.PacketBuffer.AllocHeader` | Contiki_Port_SAM4EXPRO_15/contiki/core/net/bk/packetbuf.c:170-177 | packetbuf_hdralloc on the fields |
| `PacketBuf.PacketBuffer.ReduceHeader` | Contiki_Port_SAM4EXPRO_15/contiki/core/net/bk/packetbuf.c:186-195 | packetbuf_hdrreduce on the fields |
| `Ethernet.TypeInNetworkOrder` | Contiki_Port_SAM4EXPRO_15/contiki/core/net/mac/8023/ieee8023_framer.c:137 | The type field leaves high byte first (section 3 of RFC 2464) and is read back as the same value |
| `Ethernet.FrameIffFits` | Contiki_Port_SAM4EXPRO_15/contiki/core/net/mac/8023/ieee8023_net.c:139-199 | A frame is made exactly for 0 < uip_len <= PACKETBUF_SIZE - 14; it is the 14-byte header and the packet in one piece at packetbuf_hdrptr |
| `Ethernet.FrameBytes` | Contiki_Port_SAM4EXPRO_15/contiki/core/net/mac/8023/ieee8023_net.c:139-199 | The frame of a packet byte for byte: the destination, or for a NULL one 33-33 and the last four bytes of the IPv6 destination (section 7 of RFC 2464); the node's address; 86-DD (section 3); the packet |
| `Ethernet.OutputStartsFresh` | Contiki_Port_SAM4EXPRO_15/contiki/core/net/mac/8023/ieee8023_net.c:139-199 | Frame and attributes depend on nothing the packet buffer held before |
| `Ethernet.CreatePrepends` | Contiki_Port_SAM4EXPRO_15/contiki/core/net/mac/8023/ieee8023_framer.c:124-161 | For every packet: create succeeds exactly when there is room for 14 bytes, and puts receiver, sender and type, high byte first, in front of it; otherwise header and data stay; a 33-33 receiver becomes null and no other attribute changes |
| `Ethernet.ParseTakesIff` | Contiki_Port_SAM4EXPRO_15/contiki/core/net/mac/8023/ieee8023_framer.c:58-121 | Every frame on every node: taken exactly when it has 14 bytes, type 86-DD, and its first byte is 33 or it is addressed to the node; the data is then the frame from byte 14 on, and the attributes are those of the frame |
| `Ethernet.InputSparesPacketInUse` | Contiki_Port_SAM4EXPRO_15/contiki/core/net/mac/8023/ieee8023_net.c:91-127 | A packet still in uip_buf is not overwritten; otherwise the data goes to its start and nothing else changes |
| `Ethernet.ParseUndoesCreate` | Contiki_Port_SAM4EXPRO_15/contiki/core/net/mac/8023/ieee8023_framer.c:58-161 | A created frame copied in on any node is taken exactly when its first byte is 33 or it is addressed to the node, and then sender and payload are back |
| `Ethernet.PacketCrosses` | Contiki_Port_SAM4EXPRO_15/contiki/core/net/mac/8023/ieee8023_net.c:91-199 | uip_buf to uip_buf: what one node outputs the addressed node, or every node when there is no destination, inputs byte for byte, with the sender's address and the null receiver in the latter case |
| `Ethernet.MulticastReceiverIsNull` | Contiki_Port_SAM4EXPRO_15/contiki/core/net/mac/8023/ieee8023_framer.c:151-159 | Create leaves the null receiver behind for a packet without destination |
| `Ethernet.FilterFollowsRuleIff` | Contiki_Port_SAM4EXPRO_15/contiki/core/net/mac/8023/ieee8023_framer.c:74-88 | The receive filter agrees with the 33-33 rule of section 7 of RFC 2464 on every node if and only if the address does not begin with 33 and a different second byte |
| `Ethernet.CreateFrame` | Contiki_Port_SAM4EXPRO_15/contiki/core/net/mac/8023/ieee8023_framer.c:124-161 | create on the packet buffer equals its specification |
| `Ethernet.ParseFrame` | Contiki_Port_SAM4EXPRO_15/contiki/core/net/mac/8023/ieee8023_framer.c:58-121 | parse on the packet buffer equals its specification |
| `Ethernet.OutputPacket` | Contiki_Port_SAM4EXPRO_15/contiki/core/net/mac/8023/ieee8023_net.c:139-199 | output, up to the MAC's create, equals its specification |
| `Ethernet.InputPacket` | Contiki_Port_SAM4EXPRO_15/contiki/core/net/mac/8023/ieee8023_net.c:91-127 | input copies the data into uip_buf unless it is still in use |
| `DataPath.PacketSurvivesQueue` | Contiki_Port_SAM4EXPRO_15/contiki/core/net/bk/queuebuf.c:342-426 | A packet that an event of a run from queuebuf_init on has stored in a queue buffer comes back with the same flattened bytes and attributes after any further run that neither stores in that buffer nor frees it |
| `DataPath.PacketArrives` | Contiki_Port_SAM4EXPRO_15/contiki/platform/SAM4EXPRO/dev/ethernet/gmac-drv.c:330-352 | A frame that output and create made of a packet, however the controller splits it over descriptors and whatever fragments lie in front, gives the receiver's uip_buf the same bytes and the sender's address |
| `DataPath.FramesCross` | Contiki_Port_SAM4EXPRO_15/contiki/platform/SAM4EXPRO/dev/ethernet/gmac-drv.c:263-352 | Over every run of a sender's driver and every run of a receiver's ring that has seen the first frames of the wire, what the receiver's calls report are the frames the sender's ring accepted, each once, whole and in order |
| `DataPath.PacketReachesNode` | Contiki_Port_SAM4EXPRO_15/contiki/platform/SAM4EXPRO/dev/ethernet/gmac-drv.c:263-352 | Of two nodes that have run so far, the next round of the receiver's loop that finds a frame finds the one accepted next after those reported; if that is a packet's, the packet reaches the addressed node's uip_buf unchanged, with the sender's address |
| `DataPath.NextFrame` | Contiki_Port_SAM4EXPRO_15/contiki/cpu/ATSAM/ATSAM4E16E/drivers/gmac/gmac_raw.c:385-479 | What that call reads, whole, is the accepted frame whose number is the number of frames reported so far |
| `DataPath.PacketTakenIff` | Contiki_Port_SAM4EXPRO_15/contiki/platform/SAM4EXPRO/dev/ethernet/gmac-drv.c:263-269 | The driver takes the frame of a packet exactly when its pool has an element, the full-ring test does not stop it and the packet has at most 1504 bytes |
| `DataPath.ToPacketbuf` | Contiki_Port_SAM4EXPRO_15/contiki/core/net/bk/queuebuf.c:419-426 | queuebuf_to_packetbuf leaves the stored packet in the packet buffer; a pointer from outside the pool changes nothing there |
| `DataPath.ReadsFrame` | Contiki_Port_SAM4EXPRO_15/contiki/platform/SAM4EXPRO/dev/ethernet/gmac-drv.c:330-350 | What the driver finds in the cleared packet buffer after reading an arrived frame |
| `AddrPrint.PrintedForm` | Contiki_Port_SAM4EXPRO_15/contiki/apps/net-monitor/resources/res-print-engine.c:31-48 | The text is all eight groups joined by colons, or those before the first run of zeros, "::", and those after it |
| `AddrPrint.PrintRoundTrip` | Contiki_Port_SAM4EXPRO_15/contiki/apps/net-monitor/resources/res-print-engine.c:31-48 | Parsing the text by the rules of section 2.2 of RFC 4291 returns the groups |
| `AddrPrint.AddressRoundTrip` | Contiki_Port_SAM4EXPRO_15/contiki/apps/net-monitor/resources/res-print-engine.c:21-49 | For every 16-byte address the text parses back to it, hence different addresses print differently |
| `AddrPrint.AtMostOneDouble` | Contiki_Port_SAM4EXPRO_15/contiki/apps/net-monitor/resources/res-print-engine.c:33-37 | The text has at most one "::" |
| `AddrPrint.PrintIsShort` | Contiki_Port_SAM4EXPRO_15/contiki/apps/net-monitor/resources/res-print-engine.c:21-49 | The text has at most 39 characters |
| `AddrPrint.HexReads` | Contiki_Port_SAM4EXPRO_15/contiki/apps/net-monitor/resources/res-print-engine.c:45-46 | %x on a group is read back as the same number, without a leading zero |
| `AddrPrint.SprintAddr6` | Contiki_Port_SAM4EXPRO_15/contiki/apps/net-monitor/resources/res-print-engine.c:21-49 | The loop over the character buffer appends exactly that text; a null address changes nothing |
| `AddrPrint.Append` | Contiki_Port_SAM4EXPRO_15/contiki/apps/net-monitor/resources/res-print-engine.c:35-46 | sprintf at strlen appends and terminates, and changes nothing else |
| `AddrPrint.StrLen` | Contiki_Port_SAM4EXPRO_15/contiki/apps/net-monitor/resources/res-print-engine.c:35-45 | strlen of a terminated text |

## Left out

- QueueBuf.ReadsLastStored: a buffer whose flush found no slot holds nothing until something is stored in it again; what can still be read of it in between is the subject of `QueueBuf.UpdateStaysIff`.
- GmacDrv.TransmitConservation: does not model preemption inside `gmac_dev_write` and `list_add`, or between clearing PENDING_TX and the poll loop, where the assertions of the driver are not safe; nor tx calls made from inside a sent callback; runs are those in which a full ring is noticed; `GmacDrv.OverrunsKeepAccounts` says what holds in the others.
- GmacDrv.InterruptKeepsInv: does not model the retry-limit branch, which resets the ring and drops callbacks, or statuses other than TXCOMP.
- GmacRx.RxRing.DevRead: works on one snapshot of the descriptors; what the controller adds during a call is seen by the next one.
- GmacRxRun.ReceiveIsFifo: the controller is well behaved: it writes only descriptors it owns, frames do not cut each other short, take fewer buffers than the list has, and are not lost for want of a descriptor; `GmacRxRun.ReceptionNeverJams` says what holds in all other runs, and the one-call results what a call does with such a list.
- DataPath.PacketReachesNode: the wire is a queue that loses nothing; what the receiver has not read yet is in it or in the ring.
- DataPath.PacketArrives: one round of the receive loop of the poll handler; the loop around it and the MAC's input are not part of this model.
- NbrTable.NbrTables.LockItem: promises the invariant only for an item in the table, which the code does not test.
- NbrTable.NbrTables.NextItem: asks for an item whose neighbour is listed; what list_item_next gives for a removed one is a matter of LIST.
- RingBuf32.FifoIffPointerFits: takes the width of the put pointer's store as a parameter, because the macro CC_ACCESS_NOW is not part of this model.
- `gmac_dev_get_tx_load`, the transmit wakeup threshold and its callback, `gmac_dev_write_nocopy`, and `gmac_dev_write` without a buffer.
- Register-level drivers and board code: thin writes to hardware.
- MEMB, LIST, CFS and ctimer internals.
- `nbr_table_register`, the debug timer and the address getter of the neighbour table; a NULL table pointer.
- QUEUEBUF_DEBUG, statistics, and the accessors that return a pointer into a queue buffer.
- `packetbuf_clear_hdr`, `packetbuf_hdr_remove` and `packetbuf_copyto_hdr`, which the path does not use.
- The UIP_MULTI_IFACES variant, process posting, and the interface events of the network layer.
- The dotted-decimal tail that section 2.2 of RFC 4291 also permits: the printer never produces it.
- `resource-route-event.c`, which has an address printer of its own.
- `gmac_example.c`: its checksum folds once, so the one's-complement sum is not right on every input.
- REST handlers, ethernet node and router processes, uart, stdio, watchdog and clock code.
- Blocks of `ringmem.c` longer than 65535 bytes cannot be passed to it, and are not in the model.
