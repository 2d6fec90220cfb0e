# A verified model of the lwIP transport core and its Go connection

The repository runs the lwIP stack (`core/c`) inside a Go process and turns TCP connections that arrive on a TUN device
into Go connections (`core/tcp_conn.go`). This project models the parts of it that are hard to get right and proves what
they keep and promise:

* **The receive side** (`TcpOoseq`, `TcpIn`, `TcpInRuns`, `TcpInCalls`): reassembly of segments that come in any order,
  overlapping and repeated, the receive window, and a callback that may refuse data. Positions are integers in one fixed
  sender stream; sequence numbers are compared as the code does it, on the 32-bit circle (`Seq32`).
* **The send side** (`TcpSendQueue`, `TcpSendState`, `TcpSendSize`, `TcpOut`): `tcp_write` in its three phases,
  `tcp_output`, acknowledgements, both kinds of retransmission, splitting and closing. The invariant says that `unacked`
  and `unsent`, merged by sequence number, are one contiguous stretch of all bytes ever written, up to its end, and that
  the counters agree with the queues.
* **The heap** (`HeapSpec`, `Heap`): `mem.c` as headers linked through one array, proved against a list of blocks.
* **Checksums** (`Checksum`, `TcpChecksum`): the three summing loops, chains of buffers, the pseudo headers, and the
  checksum that `tcp_out.c` keeps of a segment's payload, proved against section 2 of RFC 1071. Each queued segment of
  the send side carries that checksum over every run.
* **Packet buffers** (`Pbuf`, `PbufCopy`, `PbufRef`): what the functions of `pbuf.c` do to the bytes and lengths of a
  chain, and reference counting of chains that share their tails.
* **Timers** (`Timers`), the **round-trip estimator** (`Rtt`), the **SACK entries** (`TcpSack`) and the **Go
  connection** (`TcpConn`) over all interleavings of its locked sections.

Modules named after a C file hold classes and methods with the control flow of that file, proved against functions and
predicates on values; what the source promises is then proved of those. Memory allocation, callbacks, the clock and the
network driver are parameters that may answer anything.

What the proofs found in the code:

* A segment that lies strictly inside a queued one makes `tcp_receive` drop the tail of the queued one
  (`TcpInRuns.LostExactly` says exactly when, `TcpInRuns.NestedSegmentLoses` gives a case). No wrong byte is delivered;
  the peer has to send the tail again.
* On an empty queue an out-of-order segment is queued without being cut to the window (`TcpInRuns.OverrunIsQueued`;
  `TcpIn.OverrunsIff` says exactly when a queue outgrows the window).
* In CLOSING the acknowledgement of our FIN throws away data that the application has refused so far: `tcp_pcb_purge`
  frees it, and neither it nor the end of the stream is reported (the last clause of `TcpIn.RecvPcb.Input` says exactly
  when, `TcpInCalls.RefusedIsLost` gives a case).
* After `tcp_rexmit`, `tcp_write` and `tcp_send_fin` may append to a segment that is not the last one
  (`TcpSendState.WriteOnLastIff`, `FinOnLastIff` and `RexmitTailIff` say exactly when). The retransmission itself keeps
  the invariant, and so does sending the segment again.
* `tcp_rexmit_rto_prepare` builds an ordered queue only if all of `unacked` precedes all of `unsent`
  (`TcpSendState.RequeuedIff`). `TcpSendState.FastRetransmitBreaksOrder` reaches a state where this and the last point
  fail.
* The segment size of `tcp_write` can shrink below queued segments, which its assertion excludes: if and only if the
  peer's windows were at most one byte at first, and the new one is larger but less than twice the segment size
  (`TcpSendSize.SizesStayIff`; `TcpSendSize.TooLarge` gives a queue that does not fit). For an unsent SYN the assertion
  holds if and only if the peer's segment size is at least four, and its window at most one byte or at least eight
  (`TcpSendSize.SynFitsIff`).
* `tcp_split_unsent_seg` leaves a FIN on the head (`TcpSendQueue.SplitIff`, `TcpSendState.SplitMisplaced`).
* `pbuf_dechain` takes a tail that is gone for alive if and only if the run of pbufs there with a single reference is a
  multiple of 256 long, as `pbuf_free` counts in eight bits (`PbufRef.Pool.Dechain`, `PbufRef.WrongOn257`); `pbuf_cat`
  makes an ill-formed chain if and only if the lengths exceed 16 bits (`Pbuf.CatShapeIff`).
* `pbuf_copy` takes an empty buffer at the end of a chain for a second packet (`PbufCopy.CopyIff` says exactly when it
  still succeeds, `PbufCopy.EmptyEndFails` gives cases).
* The assertion at core/c/core/mem.c:790 fails if and only if the last block of the heap is trimmed by enough for
  another block (`HeapSpec.TrimAssertion`).
* The comment on the first summing loop promises 64 KiB; it and the second one are right on all buffers of a length if
  and only if it is at most 0x20002 (`Checksum.LimitIsExact`).
* The round-trip estimator fits 16 bits for all runs if and only if no sample exceeds 4095 ticks (`Rtt.LimitIsExact`).

## Model

| member | source | states |
|---|---|---|
| Seq32.HalfWindow | core/c/include/lwip/priv/tcp_priv.h:109-117 | positions less than half a circle apart compare under the `TCP_SEQ_` macros as the integers they stand for |
| Seq32.DiffNear | core/c/include/lwip/priv/tcp_priv.h:109-117 | two numbers within a quarter circle of a third compare by their distances from it |
| TcpOoseq.OosInsertSegment | core/c/core/tcp_in.c:1066-1099 | inserting a segment before a sorted queue drops covered segments and cuts the overlap; the result is sorted and covers exactly both |
| TcpOoseq.QueueSegment | core/c/core/tcp_in.c:1665-1807 | where a segment goes in the queue, for every place and overlap: the queue stays sorted and disjoint and covers what it did, less what is lost, plus the segment |
| TcpOoseq.CutPrevSpan | core/c/core/tcp_in.c:1744-1748 | cutting the segment in front of the new one keeps exactly what lies before it |
| TcpIn.RecvPcb.TrimToQueue | core/c/core/tcp_in.c:1477-1554 | an in-sequence segment is cut to the window and to the queue, and covered segments leave the queue; nothing else changes |
| TcpIn.RecvPcb.JoinQueue | core/c/core/tcp_in.c:1588-1624 | queued segments that have become next are delivered in order and the window shrinks by what they take |
| TcpIn.RecvPcb.ReceiveInSequence | core/c/core/tcp_in.c:1475-1624 | what an in-sequence segment delivers and leaves queued |
| TcpIn.RecvPcb.Receive | core/c/core/tcp_in.c:1388-1810 | a segment with data or FIN that keeps to the window: delivers exactly the stream from the old `rcv_nxt` to the new one, keeps the queue sorted and above it, and keeps the right window edge; any other out-of-order one is queued, and the queue then reaches beyond the window |
| TcpIn.OverrunsIff | core/c/core/tcp_in.c:1665-1807 | queueing keeps the queue within the window if and only if the segment ends inside it, or comes behind the last queued one, or repeats a queued one |
| TcpIn.RecvPcb.UpdateRcvAnnWnd | core/c/core/tcp.c:929-957 | the announced edge never moves left, and the announced window is never larger than the real one |
| TcpIn.RecvPcb.Recved | core/c/core/tcp.c:967-1003 | the window grows by what the application is done with, up to TCP_WND; an update goes out if and only if the edge announced then moves by both thresholds and there is memory; with memory the edge announced never lags behind the real one by as much as the larger threshold, and without it the lag stays bounded |
| TcpIn.UnannouncedLag | core/c/core/tcp.c:992-999 | below the threshold of `tcp_recved` the edge announced lags by less than the larger of both thresholds, and only then |
| TcpIn.RecvPcb.Announce | core/c/core/tcp_out.c:1491 | each segment sent announces an edge that is not left of the previous one and lies within the window (section 4.2.2.16 of RFC 1122) |
| TcpIn.RecvPcb.ProcessRefusedData | core/c/core/tcp.c:1538-1600 | refused data is offered again: taken once, or kept unchanged; the end of the stream is reported only after it was taken, and either callback may abort |
| TcpIn.RecvPcb.Deliver | core/c/core/tcp_in.c:489-541 | accepted bytes followed by refused data stay equal to the stream up to `rcv_nxt`; the end is reported at most once, and either callback may abort |
| TcpIn.RecvPcb.OfferAgain | core/c/core/tcp_in.c:427-447 | refused data is offered first; the segment is dropped if and only if that aborts, or data stays refused and the segment has some |
| TcpIn.RecvPcb.Move | core/c/core/tcp_in.c:938-1055 | the state afterwards belongs to the sides: our SYN acknowledged, our FIN queued and acknowledged, the peer's FIN taken; the connection is freed if and only if both FINs are acknowledged, the peer's first |
| TcpIn.RecvPcb.Process | core/c/core/tcp_in.c:803-1062 | a segment is heard, unless our SYN is still to be acknowledged or the peer has closed, and moves the state; an arrival never changes whether the application can write |
| TcpIn.NextStands | core/c/core/tcp_in.c:938-1055 | the transition table gives the one state that belongs to the sides |
| TcpStates.OneState | core/c/core/tcp_in.c:938-1055 | the sides determine the state |
| TcpStates.SomeState | core/c/core/tcp_in.c:938-1055 | there is a state for all that can happen to the sides, but for a connection that is gone |
| TcpIn.RecvPcb.Input | core/c/core/tcp_in.c:427-552 | a whole arrival: refused data first, then the segment, then delivery; exactly when it is dropped, and exactly when the connection is freed; the sides that are closed afterwards, and the state belongs to them; what the application can write to is as before; refused data is thrown away exactly if the last acknowledgement comes in CLOSING; and the invariant holds again exactly if the segment was dropped, not heard, could not be copied, or kept to the window |
| TcpIn.RecvPcb.CloseFin | core/c/core/tcp.c:408-440 | queueing our FIN moves to the state that belongs to it |
| TcpIn.RecvPcb.FreeOoseq | core/c/core/tcp.c:2385-2400 | dropping the queue keeps the invariant |
| TcpInCalls.Serve | core/c/core/tcp_in.c:427-552 | over every run of arrivals, refusals, window updates, closes and dropped queues, from any valid state: accepted bytes, followed by what is refused or was thrown away in TIME_WAIT, are the stream up to `rcv_nxt`; the end is reported at most once and after the last byte; the edges announced after each call ascend and stay within the window; if there is memory for every update, the window announced is open wherever the real one is larger than the threshold; and our FIN is queued exactly if a close was among the calls |
| TcpInCalls.RefusedIsLost | core/c/core/tcp_in.c:1036-1045 | a case in which refused data is thrown away in CLOSING: the whole stream arrived and none of it is accepted |
| TcpInRuns.DeliveredIsPrefix | core/c/core/tcp_in.c:1388-1810 | over every run of arrivals and failed copies the application has got exactly the stream up to `rcv_nxt` |
| TcpInRuns.HeldArrived | core/c/core/tcp_in.c:1388-1810 | nothing is held that did not arrive |
| TcpInRuns.HeldIsArrived | core/c/core/tcp_in.c:1388-1810 | if nothing was lost, `rcv_nxt` stands at the first byte that has not arrived |
| TcpInRuns.OrderDoesNotMatter | core/c/core/tcp_in.c:1388-1810 | two lossless runs with the same arrivals in any order have delivered the same data |
| TcpInRuns.LostExactly | core/c/core/tcp_in.c:1736-1753 | a queued segment loses bytes exactly when the new one lies strictly inside it and it has no FIN |
| TcpInRuns.NestedSegmentLoses | core/c/core/tcp_in.c:1736-1753 | a case where it does |
| TcpInRuns.OverrunIsQueued | core/c/core/tcp_in.c:1665-1666 | a segment past the right edge is queued untrimmed on an empty queue |
| TcpSendQueue.FlightPayload | core/c/core/tcp_out.c:389-812 | the payload of a contiguous merged queue is the stream from the place where it starts |
| TcpSendQueue.MergedSums | core/c/core/tcp_out.c:1380-1406 | merging loses and doubles no segment, byte or pbuf |
| TcpSendQueue.InsertMerged | core/c/core/tcp_out.c:1743-1753 | moving the head of one queue to its sorted place in the other leaves the merge as it is |
| TcpSendQueue.JoinedIff | core/c/core/tcp_out.c:1657-1665 | one queue put in front of the other is in order if and only if its last segment precedes the other's first |
| TcpSendQueue.DropMerged | core/c/core/tcp_in.c:1112-1142 | what an acknowledgement takes off both queues is the acknowledged front of their merge |
| TcpSendQueue.SplitIff | core/c/core/tcp_out.c:895-934 | head and remainder of a split hold the old segment's place if and only if it had no FIN |
| TcpSendState.SentInv | core/c/core/tcp_out.c:1366-1412 | sending the head keeps the invariant and moves `snd_nxt` to the end of what was sent |
| TcpSendState.HeadInWindow | core/c/core/tcp_out.c:1304-1331 | the 32-bit test of the head against the window is the one on integers: its data ends between the acknowledged position and the end of the window |
| TcpSendState.AckedInv | core/c/core/tcp_in.c:1247-1332 | an acknowledgement keeps the invariant and removes whole acknowledged segments only |
| TcpSendState.RequeuedIff | core/c/core/tcp_out.c:1630-1680 | exactly when the retransmission timer leaves an ordered queue |
| TcpSendState.WrittenInv | core/c/core/tcp_out.c:700-793 | committing a write appends exactly the given bytes, whichever phases took them |
| TcpSendState.WriteOnLastIff | core/c/core/tcp_out.c:498-585 | bytes may go onto the last unsent segment if and only if it ends everything queued; otherwise no view of the queues is contiguous |
| TcpSendState.FinOnLastIff | core/c/core/tcp_out.c:1005-1017 | the same for the FIN that `tcp_send_fin` puts there |
| TcpSendState.FinMisplaced | core/c/core/tcp_out.c:1005-1017 | a FIN put on a last segment that others follow leaves no view of the connection that the queues fit |
| TcpSendState.RexmitTailIff | core/c/core/tcp_out.c:1723-1774 | exactly when a fast retransmission keeps the end of the unsent queue in place |
| TcpSendState.FastRetransmitBreaksOrder | core/c/core/tcp_out.c:1723-1774 | a state that is reached in which the retransmission timer, a write and a FIN all break the order |
| TcpSendState.SplitInv | core/c/core/tcp_out.c:826-990 | splitting keeps the invariant and the counters |
| TcpSendState.SplitMisplaced | core/c/core/tcp_out.c:895-934 | after the split of a head with a FIN no view of the queues is contiguous |
| TcpSendState.FinQueuedInv | core/c/core/tcp_out.c:1096-1122 | a FIN segment of its own keeps the invariant and takes one sequence number |
| TcpSendState.SumsKept | core/c/core/tcp_out.c:282-295 | every queued segment has the checksum of its payload, as the invariant says |
| TcpSendSize.WriteDone | core/c/core/tcp_out.c:700-793 | what the end of a write makes of the state, with no segment and its spare room beyond the segment size |
| TcpSendSize.WriteMisplaced | core/c/core/tcp_out.c:498-585 | the same where phase 2 extended a segment that others follow: all is committed alike, but no view of the connection fits the queues |
| TcpSendSize.WriteEnds | core/c/core/tcp_out.c:700-793 | both cases: the invariant holds after a write if and only if nothing went onto a segment that others follow |
| TcpSendSize.WriteFills | core/c/core/tcp_out.c:478-793 | no segment is begun while the one before it has room: a write fills the last unsent segment first and makes full ones behind it, and pushes only the last |
| TcpSendSize.SizedAcked | core/c/core/tcp_in.c:1103-1148 | no acknowledgement leaves a segment too large, or room behind a segment that is gone |
| TcpSendSize.SizedSplit | core/c/core/tcp_out.c:826-990 | nor does splitting |
| TcpSendSize.SizeShrinksIff | core/c/core/tcp_out.c:416-418 | exactly when a larger window makes the segment size smaller |
| TcpSendSize.SizesStayIff | core/c/core/tcp_out.c:416-418 | all queues that fit the old segment size fit the new one if and only if the old window was at least two bytes, or the new one is not, or the peer's segment size is at most half of it |
| TcpSendSize.TooLarge | core/c/core/tcp_out.c:480-483 | otherwise a queue reached by an open and one write no longer fits, so that the assertion fails |
| TcpSendSize.SynFitsIff | core/c/core/tcp_out.c:480-483 | exactly when the assertion about the segment size holds for an unsent SYN |
| TcpOut.InsertSorted | core/c/core/tcp_out.c:1743-1759 | the loop that finds a segment's place in a sorted queue |
| TcpOut.ToUnacked | core/c/core/tcp_out.c:1377-1408 | the place of a sent segment in `unacked`, also for a retransmitted one |
| TcpOut.SendPcb.constructor | core/c/core/tcp_in.c:692-740 | a passive open with its SYN queued establishes the invariant for any segment size and window |
| TcpOut.SendPcb.Output | core/c/core/tcp_out.c:1236-1420 | sends heads in order as long as it may: with ERR_OK it stops exactly at a segment that ends beyond the window, as integers, or at the one short segment that the Nagle algorithm holds back; an idle connection sends its first segment if that fits; every segment sent ends inside the window, and the last short one only goes if the algorithm lets it; an error is the one of the segment it stopped at; the early returns change nothing |
| TcpOut.SendPcb.SendAll | core/c/core/tcp_out.c:1332-1412 | the loop: why it stops, what it sends at least and at most, and which segment an error comes from |
| TcpOut.SendPcb.SendHead | core/c/core/tcp_out.c:1366-1412 | one segment goes over to `unacked` |
| TcpOut.SendPcb.WireChksum | core/c/core/tcp_out.c:1574-1589 | the checksum put into the header of any queued segment, from the one kept of its payload, is that of the whole segment with its pseudo header |
| TcpOut.SendPcb.FreeAcked | core/c/core/tcp_in.c:1103-1148 | frees the acknowledged front of a list and counts its bytes and pbufs |
| TcpOut.SendPcb.Ack | core/c/core/tcp_in.c:1247-1332 | an acceptable acknowledgement takes off exactly the acknowledged segments and gives their bytes back to `snd_buf`; any other changes nothing |
| TcpOut.SendPcb.Rexmit | core/c/core/tcp_out.c:1723-1774 | the first unacked segment goes back to its place; no byte is lost or reordered |
| TcpOut.SendPcb.RexmitRtoPrepare | core/c/core/tcp_out.c:1630-1680 | all unacked segments go in front of the unsent ones, or nothing changes; the invariant holds afterwards exactly if that was their order |
| TcpOut.SendPcb.SplitUnsent | core/c/core/tcp_out.c:826-990 | the head is cut in two at the given place, both with their checksums, or nothing changes; the payload is the same, and the invariant holds afterwards exactly if no head with a FIN was cut |
| TcpOut.SendPcb.SendFin | core/c/core/tcp_out.c:1001-1122 | the FIN goes onto the last unsent segment or into one of its own, or nothing changes for lack of memory; it is behind all data, and the invariant holds, exactly if it does not go onto a segment that others follow |
| TcpOut.SendPcb.CloseShutdownFin | core/c/core/tcp.c:408-460 | closing always reports success: the FIN is queued behind all data, the state is FIN_WAIT_1, or LAST_ACK if the peer has closed, and sending is tried; or the close is marked pending and nothing else changes |
| TcpOut.SendPcb.RetryClose | core/c/core/tcp.c:1500-1504 | a pending close is tried again, and is pending afterwards exactly if there was no memory again |
| TcpOut.SendPcb.SeeWindow | core/c/core/tcp_in.c:1174-1178 | the largest window is kept; the invariant holds afterwards exactly if the queued segments fit the new segment size, which all do in the cases of `SizesStayIff` |
| TcpOut.SendPcb.OntoLast | core/c/core/tcp_out.c:478-597 | phases 1 and 2 fill the last unsent segment up to the segment size, with a new pbuf exactly if they chain one, and what its checksum is then |
| TcpOut.SendPcb.NewSegments | core/c/core/tcp_out.c:603-691 | phase 3 makes contiguous segments, all but the last full, with their checksums and the PSH flag where it belongs, or fails for lack of memory or queue space |
| TcpOut.SendPcb.Phases | core/c/core/tcp_out.c:462-691 | the three phases in sequence: what is to be committed, and whether the queues will still hold the stream |
| TcpOut.SendPcb.Write | core/c/core/tcp_out.c:389-812 | `tcp_write` appends exactly the given bytes to the unsent payload and the stream, in segments that are full but for the last one, which is pushed unless more will come; or changes nothing, and says why; the invariant holds afterwards exactly if phase 2 did not extend a segment that others follow |
| TcpOut.Serve | core/c/core/tcp_out.c:389-1774 | over every run of calls that avoid the faults named, fast retransmissions included: the stream is what the successful writes gave, in order, `snd_buf` and the bytes queued add up to TCP_SND_BUF, `snd_queuelen` counts the pbufs, and each segment has the checksum of its payload |
| HeapSpec.AllocWf | core/c/core/mem.c:867-950 | allocation keeps the blocks tiling the arena, aligned, with no two free neighbours |
| HeapSpec.AllocFailsIff | core/c/core/mem.c:867-975 | it fails exactly when no free block is large enough |
| HeapSpec.AllocFinds | core/c/core/mem.c:867-950 | it makes one new live range, large enough and clear of all others, and moves none |
| HeapSpec.AllocTakes | core/c/core/mem.c:867-950 | the block taken is the first that fits; it gets exactly the size asked for, with the rest free behind it, or the whole block if the rest could not hold another, and no other block changes |
| HeapSpec.ReleaseKeeps | core/c/core/mem.c:615-686 | freeing ends exactly one live range and keeps the arena in order |
| HeapSpec.ShrinkKeeps | core/c/core/mem.c:698-820 | trimming keeps the place and at least the requested size of one range and all others as they are |
| HeapSpec.ShrinkCuts | core/c/core/mem.c:740-810 | a trimmed block gives up what it can: all of it to a free block behind, or as a new free block, and less than a header and the smallest block stays unused |
| HeapSpec.TrimAssertion | core/c/core/mem.c:780-790 | exactly when the assertion in `mem_trim` fails |
| HeapSpec.TrimAssertionFails | core/c/core/mem.c:780-790 | a heap where it does |
| HeapSpec.AllocThenRelease | core/c/core/mem.c:615-686 | freeing what was just allocated restores the block list, and so `lfree` |
| HeapSpec.EveryRun | core/c/core/mem.c:567-607 | after every sequence of calls the blocks tile the arena and no two free ones are neighbours |
| HeapSpec.LiveDisjoint | core/c/core/mem.c:567-607 | live ranges do not overlap |
| HeapSpec.Unmoved | core/c/core/mem.c:615-950 | a call leaves every live range where it is but the one it frees or trims |
| Heap.Rounded | core/c/core/mem.c:844-862 | the rounded request: aligned, at least the minimum, refused exactly when the request exceeds the heap |
| Heap.Heap.constructor | core/c/core/mem.c:515-545 | `mem_init` makes one free block |
| Heap.Heap.Search | core/c/core/mem.c:882-900 | the search from `lfree` stops at the first fit from offset 0, or nothing fits |
| Heap.Heap.TakeBlock | core/c/core/mem.c:900-933 | the split in the linked headers |
| Heap.Heap.AdjustLfree | core/c/core/mem.c:934-951 | `lfree` is the lowest free block again |
| Heap.Heap.Malloc | core/c/core/mem.c:829-976 | `mem_malloc` is first fit from offset 0, with `lfree` exactly the lowest free block before and after |
| Heap.CutLinked | core/c/core/mem.c:756-806 | the header writes of `mem_trim` link the remainder in between its neighbours |
| Heap.CutNextLowest | core/c/core/mem.c:759-763 | `lfree` stays the lowest free block when the free block behind grows at the front |
| Heap.CutOffLowest | core/c/core/mem.c:792-794 | and when the remainder becomes a block of its own |
| Heap.Heap.LinkValid | core/c/core/mem.c:550-564 | the link check passes for every block |
| Heap.Heap.PlugHoles | core/c/core/mem.c:472-510 | merging with both neighbours gives the fully merged block list |
| Heap.Heap.Free | core/c/core/mem.c:615-686 | `mem_free` releases the block, or changes nothing for NULL, misaligned, outside or already free pointers |
| Heap.Heap.Trim | core/c/core/mem.c:698-820 | `mem_trim` in its three cases |
| Heap.Heap.Sanity | core/c/core/mem.c:566-607 | no assertion of `mem_sanity` fails |
| Checksum.ChksumIsRfc1071 | core/c/core/inet_chksum.c:79-256 | the value computed is the one's-complement sum of RFC 1071 with its bytes swapped |
| Checksum.ChksumZero | core/c/core/inet_chksum.c:79-256 | it is zero if and only if all bytes are zero |
| Checksum.CarriesItsChecksum | core/c/core/inet_chksum.c:548-551 | a message that carries its inverted checksum at an even place checks to zero |
| Checksum.StandardChksum1 | core/c/core/inet_chksum.c:79-115 | the byte-pair loop: what its 32-bit accumulator makes of any buffer, which is the checksum up to 0x20002 bytes |
| Checksum.StandardChksum2 | core/c/core/inet_chksum.c:132-174 | the 16-bit loop, for either parity of the address, likewise |
| Checksum.StandardChksum3 | core/c/core/inet_chksum.c:188-256 | the 32-bit loop with carries added back, for any address and length |
| Checksum.LimitIsExact | core/c/core/inet_chksum.c:79-174 | the results of both loops are right on all buffers of a length if and only if it is at most 0x20002, for either weight of the first byte |
| Checksum.StepRunning | core/c/core/inet_chksum.c:567-588 | one fold a turn keeps the accumulator within 16 bits, so that no swap drops anything |
| Checksum.InetChksumPbuf | core/c/core/inet_chksum.c:566-588 | the checksum of a chain is that of its bytes in one piece, for every way of cutting them |
| Checksum.InetChksumPseudo | core/c/core/inet_chksum.c:259-327 | the checksum of the pseudo header followed by the chain |
| Checksum.InetChksumPseudoPartial | core/c/core/inet_chksum.c:398-486 | the same for the first bytes of the chain |
| TcpChecksum.SegAddChksum | core/c/core/tcp_out.c:282-295 | adding the checksum of appended bytes gives that of the whole payload, with its swap bit |
| TcpChecksum.SegChksum.constructor | core/c/core/tcp_out.c:607-671 | a new segment's checksum, for copied data and for data that is not copied |
| TcpChecksum.SegChksum.Of | core/c/core/tcp_out.c:709-722 | a queued segment and the pair it has |
| TcpChecksum.SegChksum.AppendCopy | core/c/core/tcp_out.c:709-722 | phase 1 |
| TcpChecksum.SegChksum.AppendConcat | core/c/core/tcp_out.c:752-764 | phase 2, with its own running pair |
| TcpChecksum.SegChksum.Resum | core/c/core/tcp_out.c:941-961 | the head of a split segment summed anew over its chain |
| TcpChecksum.SegChksum.Output | core/c/core/tcp_out.c:1574-1589 | the value sent equals the full pseudo-header checksum of the whole segment, and the stored pair is as before |
| PbufRef.LiveIffReachable | core/c/core/pbuf.c:690-724 | with the counts right, the live pbufs are exactly those that some handle reaches |
| PbufRef.UnrefInv | core/c/core/pbuf.c:746-795 | giving back one reference, and passing on the one that a dead pbuf held |
| PbufRef.Pool.Alloc | core/c/core/pbuf.c:178-190 | a new pbuf has one reference |
| PbufRef.Pool.Free | core/c/core/pbuf.c:724-800 | `pbuf_free` deallocates exactly what no handle reaches any more |
| PbufRef.Pool.Ref | core/c/core/pbuf.c:828-836 | one reference more |
| PbufRef.Pool.Cat | core/c/core/pbuf.c:852-875 | the last pbuf of the head takes over the caller's reference |
| PbufRef.Pool.Chain | core/c/core/pbuf.c:894-901 | the caller keeps its reference |
| PbufRef.Pool.Dechain | core/c/core/pbuf.c:911-940 | the tail loses one reference, and the run of pbufs with no other one goes; the result is wrong exactly when the length of that run is a positive multiple of 256 |
| PbufRef.WrongOn257 | core/c/core/pbuf.c:911-940 | a chain on which it is |
| Pbuf.PoolAlloc | core/c/core/pbuf.c:235-272 | a well-formed chain of the requested length in full buffers, or failure exactly when the pool is too small |
| Pbuf.CatShapeIff | core/c/core/pbuf.c:852-875 | lengths stay right in a concatenation if and only if they fit 16 bits |
| Pbuf.Chain.Cat | core/c/core/pbuf.c:852-875 | concatenation of the bytes |
| Pbuf.Chain.Realloc | core/c/core/pbuf.c:401-459 | a prefix of the bytes, well-formed |
| Pbuf.Chain.FreeHeader | core/c/core/pbuf.c:670-688 | a suffix of the bytes, well-formed |
| PbufCopy.CopyIff | core/c/core/pbuf.c:974-1009 | the exact condition, on the lengths of the buffers before the call, under which `pbuf_copy` succeeds |
| PbufCopy.WalkIff | core/c/core/pbuf.c:974-1009 | where the tests for a second packet have passed, only an empty buffer at an end of a chain still stops the loop, and exactly when it gets there |
| PbufCopy.EmptyEndFails | core/c/core/pbuf.c:997-1008 | cases of failure with ERR_ARG and ERR_VAL |
| PbufCopy.NoEmptyEnd | core/c/core/pbuf.c:960-1012 | chains whose last buffers are not empty are always copied |
| Pbuf.Chain.Copy | core/c/core/pbuf.c:960-1012 | the bytes of one chain over the first ones of another, exactly under that condition; or an error, after as many bytes as the loop got to |
| Pbuf.CopyPartial | core/c/core/pbuf.c:1026-1057 | a slice of the bytes, as far as there are any |
| Pbuf.Skip | core/c/core/pbuf.c:1151-1168 | the buffer that holds a byte, and its place there |
| Pbuf.GetAt | core/c/core/pbuf.c:1370-1400 | the byte at an offset, zero behind the end |
| Pbuf.Chain.Take | core/c/core/pbuf.c:1195-1226 | data written over the first bytes, or the error |
| Pbuf.Chain.TakeAt | core/c/core/pbuf.c:1239-1265 | data written at an offset, exactly when it fits |
| Pbuf.SpliceFlat | core/c/core/pbuf.c:1195-1265 | writing into one buffer is writing into the flattened bytes |
| Pbuf.WriteThenRead | core/c/core/pbuf.c:1026-1265 | what `pbuf_take_at` has written `pbuf_copy_partial` reads back, and all other bytes are as before |
| Pbuf.MemCmp | core/c/core/pbuf.c:1433-1463 | zero for equal bytes, 0xFFFF if there are too few, else one more than the first difference |
| Pbuf.MemFind | core/c/core/pbuf.c:1475-1489 | the first match, or 0xFFFF |
| Timers.InsertKeepsSorted | core/c/core/timeouts.c:183-221 | insertion keeps the list in order while all times lie in half a turn of the clock |
| Timers.FirstInFirstOut | core/c/core/timeouts.c:209-220 | a timer goes behind all that are due no later |
| Timers.RemoveKeepsSorted | core/c/core/timeouts.c:316-341 | removal keeps the order |
| Timers.RemovesFirst | core/c/core/timeouts.c:316-341 | what is removed is the first timer of its kind and nothing else |
| Timers.RebasedSorted | core/c/core/timeouts.c:405-422 | rebasing starts the list now and keeps all distances |
| Timers.AgainMeans | core/c/core/timeouts.c:241-259 | a cyclic timer that ran is due one interval after its last due time or, if that is past, one interval from now, and not before now |
| Timers.Timeouts.TimeoutAbs | core/c/core/timeouts.c:173-221 | `sys_timeout_abs` |
| Timers.Timeouts.Untimeout | core/c/core/timeouts.c:315-341 | `sys_untimeout` removes the first match only |
| Timers.Timeouts.RestartTimeouts | core/c/core/timeouts.c:405-422 | `sys_restart_timeouts` |
| Timers.Timeouts.CyclicTimer | core/c/core/timeouts.c:232-261 | the timer is started anew, as `AgainMeans` says, and the list stays in order |
| Timers.Timeouts.Act | core/c/core/timeouts.c:389-391 | what handlers start and cancel is exactly that, and adds nothing to what is due |
| Timers.Timeouts.StartOne | core/c/core/timeouts.c:288-308 | `sys_timeout`: a timer that many milliseconds from now, at its place in the list |
| Timers.Timeouts.CheckTimeouts | core/c/core/timeouts.c:351-396 | a sweep ends and runs no timer early; timers run in the order of their due times, each that was due when the sweep began as often as it was in the list, unless a handler cancels it; a cyclic timer runs at most twice, and of each cyclic kind there are as many afterwards as before, but for what handlers start and cancel; altogether no timer is lost or doubled, and every turn does to the list what running its head means |
| Timers.RestartsEach | core/c/core/timeouts.c:241-259 | in a sweep every run of a cyclic timer starts it anew exactly once |
| Rtt.AlwaysBounded | core/c/core/tcp_in.c:1360-1382 | for any sequence of samples up to M ticks, M at most 4095, acknowledgements and time-outs the estimate stays in its bounds and `rto` is at least 3 |
| Rtt.LimitIsExact | core/c/core/tcp_in.c:1360-1382 | 16 bits hold the estimate after every run of samples of at most M ticks if and only if M is at most 4095 |
| Rtt.Converges | core/c/core/tcp_in.c:1369-1371 | under steady samples the smoothed value reaches eight times the sample and never exceeds it |
| Rtt.NoOvershoot | core/c/core/tcp_in.c:1369-1371 | the smoothed value moves towards the sample and not past it |
| Rtt.FollowsRfc6298 | core/c/core/tcp_in.c:1369-1381 | both means are those of section 2.3 of RFC 6298 with weights of an eighth and a quarter, rounded up to the next stored value, and the time-out is the rounded-down SRTT and four times RTTVAR |
| Rtt.BackOffDoubles | core/c/core/tcp.c:1286-1290 | each expiry doubles the time-out up to the seventh, within 16 bits |
| Rtt.AckEndsBackOff | core/c/core/tcp_in.c:1261 | an acknowledgement of new data takes every back-off back |
| Rtt.Estimator.Measure | core/c/core/tcp_in.c:1360-1382 | no cast of the estimation changes a value |
| Rtt.Estimator.BackOff | core/c/core/tcp.c:1286-1290 | the back-off |
| TcpSack.AddedKeeps | core/c/core/tcp_in.c:2062-2111 | the entries stay disjoint, at most four, with the newest in front (section 4 of RFC 2018) |
| TcpSack.AddedCovers | core/c/core/tcp_in.c:2062-2111 | after adding, the range is covered and nothing else new; what is no longer covered was in an entry that overlaps the range, or in the oldest of four that do not |
| TcpSack.FromCovers | core/c/core/tcp_in.c:2122-2147 | removal keeps exactly what was covered at the number and above |
| TcpSack.UpToCovers | core/c/core/tcp_in.c:2162-2187 | removal keeps exactly what was covered below the number |
| TcpSack.FromDisjoint | core/c/core/tcp_in.c:2122-2147 | and keeps the entries disjoint |
| TcpSack.UpToDisjoint | core/c/core/tcp_in.c:2162-2187 | the same |
| TcpSack.SackPcb.AddSack | core/c/core/tcp_in.c:2062-2111 | the array compacted and shifted in place holds the new list, and unused entries behind it |
| TcpSack.SackPcb.RemoveLt | core/c/core/tcp_in.c:2122-2147 | compaction in place |
| TcpSack.SackPcb.RemoveGt | core/c/core/tcp_in.c:2162-2187 | compaction in place |
| TcpConn.EveryRun | core/tcp_conn.go:103-130 | over every interleaving: in `tcpConns` exactly while below `tcpClosed`, key argument freed once on leaving, at most one end, `tcpClosing` only with both sides closed |
| TcpConn.NeverBack | core/tcp_conn.go:293-470 | over every interleaving the state never moves back |
| TcpConn.StepInv | core/tcp_conn.go:293-470 | each step keeps the invariant |
| TcpConn.HandlersTell | core/tcp_conn.go:115-441 | each step of a goroutine records what it does to the connection, and only that: accepted, a side closed, abort asked |
| TcpConn.ReceiveTells | core/tcp_conn.go:153-181 | over every interleaving a receive callback takes data exactly if the handler has accepted the connection or closed its writing side, the reading side is open and nobody asked to abort; it waits exactly if nothing has happened yet, and is shut down otherwise |
| TcpConn.ErroredBranchIsDead | core/tcp_conn.go:175-177 | the abort branch of `receiveCheck` is never taken |
| TcpConn.LookupNeverFails | core/tcp_callback_export.go:60-65 | nor is the abort of a callback that does not find its connection |
| TcpConn.EitherOrder | core/tcp_conn.go:293-407 | closing both sides in either order leads to the same closing state |
| TcpConn.ErroredIsReached | core/tcp_conn.go:448-455 | the state of which `WithoutLookup` speaks is reached |
| TcpConn.WithoutLookup | core/tcp_callback_export.go:60-65 | it would be, and would move the state back, but for the lookup in the callback |
| TcpConn.TcpConn.constructor | core/tcp_conn.go:75-110 | creation registers the connection |
| TcpConn.TcpConn.Establish | core/tcp_conn.go:115-123 | the handler's success is kept in mind, exactly if nothing had happened before; it keeps the invariant and does not move the state back |
| TcpConn.TcpConn.CloseWrite | core/tcp_conn.go:293-312 | closing the writing side keeps the invariant; the side counts as closed unless the connection is ending, where nothing changes |
| TcpConn.TcpConn.SetLocalClosed | core/tcp_conn.go:389-407 | the peer's end of stream, likewise |
| TcpConn.TcpConn.AskAbort | core/tcp_conn.go:435-441 | the first half of `Abort` is kept in mind unless the connection has ended; it keeps the invariant and does not move the state back |
| TcpConn.TcpConn.Release | core/tcp_conn.go:462-470 | leaving the map frees the key argument once |
| TcpConn.TcpConn.CheckClosing | core/tcp_conn.go:323-332 | closing ends a closing connection once and takes it out of the map, changes nothing in any other state, and keeps the invariant |
| TcpConn.TcpConn.CheckAborting | core/tcp_conn.go:334-343 | aborting, likewise |
| TcpConn.TcpConn.CheckState | core/tcp_conn.go:352-371 | the sections in sequence end a connection that is closing or aborting once, so that it is neither afterwards, and change nothing otherwise |
| TcpConn.TcpConn.Err | core/tcp_conn.go:448-455 | an error from lwIP ends a connection that is found, and keeps the invariant |
| TcpConn.TcpConn.ReceiveCheck | core/tcp_conn.go:153-181 | what a receive callback is told, from what happened to the connection, as in `ReceiveTells`; one that finds its connection is never told to abort |

## Left out

- TcpIn.RecvPcb.Receive: a segment that starts more than an eighth of the circle behind `rcv_nxt`.
- TcpIn.RecvPcb.UpdateRcvAnnWnd: the announced edge less than a quarter of the circle behind `rcv_nxt`.
- TcpOut.SendPcb.Write: the assertion about the segment size is a no-op for an unsent SYN, which no phase extends.
- TcpOut.SendPcb.CloseShutdownFin: what is sent after a FIN that `SendFin` has put on a segment that others follow.
- TcpOut.SendPcb.RetryClose: the same.
- TcpOut.Serve: passes over the calls that break the queues: a write or FIN onto a segment that others follow, a time-out with the queues out of order, the split of a head with a FIN, and a window that queued segments do not fit.
- TcpInCalls.Serve: passes over segments that are not part of the stream, start too far behind, or make the queue outgrow the window as `OverrunsIff` says.
- TcpIn.RecvPcb.Input: a segment that starts more than an eighth of the circle behind `rcv_nxt`, as in `Receive`; no more than 16000 window updates in a row that find no memory; `Recved` likewise.
- TcpIn.RecvPcb.Process: the accept callback when our SYN is acknowledged, the reset that answers a wrong acknowledgement then, and what `tcp_timewait_input` answers.
- Checksum.InetChksumPseudoPartial: the assertion in its loop is a no-op.
- Heap.Heap.Trim: the assertion at core/c/core/mem.c:790 is a no-op, as the next line handles the case it forbids.
- Timers.Timeouts.CheckTimeouts: timers at most an eighth of the clock's turn overdue, a sweep no longer than that, handlers that start timers with a positive delay, all at one reading of the clock; the pool of timers does not run out.
- TcpConn.TcpConn.constructor: creation is one step, and the random keys are distinct.
- SYN flags inside `tcp_receive`, urgent data, and limits on the number of queued bytes or pbufs.
- Active opens, resets, keep-alive and zero-window probes, the persist timer, congestion control, and the window update fields.
- TCP options other than MSS: timestamps, window scaling, the building of SACK options.
- The contents of heap blocks, and overlap of headers with data; alignment is fixed at four bytes, and the interrupts that `LWIP_ALLOW_MEM_FREE_FROM_OTHER_CONTEXT` allows.
- IPv6 pseudo headers, and big-endian hosts.
- `pbuf_add_header` and the room in front of a payload, packet queues, custom pbufs, and splitting at 64 KiB; chains that share buffers are in `PbufRef` only, without their contents.
- That `snd_queuelen` stays below 16 bits under repeated splits; `tcp_write` itself keeps its limit.
- Lifetime of the C control blocks across the Go boundary, and blocking of `Write`, `Read` and `Receive` in `tcp_conn.go`: the model is about safety of locked sections, not about progress.
- Netif, IP, ICMP, ARP, UDP, DNS and the Go packages above the connection.
