# A TCP stack shared by an FPGA and lwIP, in Dafny

The driver lets an FPGA send TCP payload on its own and keeps lwIP believing that it sent the
bytes itself. This project models the software half of that arrangement and proves what holds
over all its runs.

**Fast path** (`FastPath*.dfy`, `TcpSession.dfy`, `SessionSteps.dfy`, `RxGate.dfy`,
`InsertedAck.dfy`, `SynAck.dfy`, `SeqNum.dfy`). Bytes go out by a
software send or a hardware fire, come back as packet copies on a feedback channel, and are
written into lwIP as dummies; lwIP's own segments are dropped and counted. Four counters per
session and two global ones are shared, without a common lock, by sending threads, the service
thread, the receive thread and lwIP. `FastPath.dfy` is the step system: one step is one shared
memory access of one thread, or one act of the FPGA, of lwIP or of the peer, for any number of
sessions and of sending threads. `FastPathInvariant.dfy` holds the inductive invariant,
`FastPathTheorems.dfy`, `FastPathWindow.dfy`, `FastPathProgress.dfy`, `FastPathLimits.dfy` and
`FastPathReportOnly.dfy` the results. `TcpSession.dfy` is the session as an object, with the send
check, the replay into lwIP, the frames of lwIP and the segments of the peer as methods, and
`InsertedAck.dfy` the packet that `updateRx` inserts. Each of these methods is tied to the steps of
its thread: the send decision in `TcpSession.dfy`, the others in `SessionSteps.dfy`.

**Checksums and templates** (`Checksum*.dfy`, `PseudoChecksum.dfy`, `Template*.dfy`,
`PacketOnWire.dfy`, `PacketImage.dfy`, `DriverPackets.dfy`). The Internet checksum exists as a plain
loop, as ten unrolled blocks, in vector lanes, with two folds and with a full fold; all are proved
against one word sum. Templates let the FPGA add late fields to a partial sum through two parity
bitmaps; the sum is right for every packet and every register file exactly when a template is well
formed, and right once folded exactly when every register byte is cleared and its excess vanishes
modulo 65535. A packet action keeps its image, its IP checksum and its TCP partial sum together
under every call, and what it hands over leaves as a packet that verifies, for every register file,
exactly when the packet reaches over every register byte of its template.

**EPM tables** (`EpmRegion.dfy`, `WcDescriptor.dfy`, `WcCopy.dfy`, `ActionTable*.dfy`, `ActionObjects.dfy`).
Actions and heap slots are laid out by prefix sums over a table of regions, arbitrary in the
proofs and the driver's own at the end. Packets reach the FPGA's heap through a window that
starts with a descriptor of cut bit fields. Sessions, market data joins and user allocations take and
return actions over whole runs.

**Security hash** (`HashTable.dfy`, `HashEngine.dfy`, `Bits.dfy`) and **report queue**
(`ReportQueue.dfy`): a packed lookup table against the plain table and a set, and a ring in memory
against a FIFO, with a pointer that outlives its lock.

## Results that differ from what the code seems to promise

- *An inserted acknowledgement can pass the peer.* The wait loop of `updateRx` loads the transmit
  counter up to three times in one iteration; lwIP may transmit in between
  (`InsertedAckCanPassPeer`). The inserted number stays below the peer's if and only if lwIP
  transmits less, after the gate's load, than the gate found missing (`InsertedIsBelowPeer`). No
  acknowledgement is ever beyond what lwIP has transmitted (`AckGate`).
- *The inserted packet keeps the header length of the segment it is cut from*, so it is malformed
  if the peer's segments carry options (`InsertEmptyRemoteAck`).
- *The in-flight limit depends on a load order that C++ leaves open.* Subtraction does not order
  its operands; the limit holds if and only if the dummy counter is loaded first
  (`LimitNeedsDummyFirst`). In the other order only the send window limits what waits in the FPGA
  (`LateDummyLoadIsUnlimited`).
- *The window test is not atomic with the count*, so every sending thread but one can add a payload
  on top of a stale check (`CommittedStaysNearWindow`). The 2048 byte margin takes up one of them:
  without hardware fires the committed bytes stay inside an offered window on all runs if and only
  if at most two threads send on the session (`WindowNeedsTwoThreads`). Three of them reach 4081
  bytes where 3409 were offered (`ThreeThreadsLeaveWindow`). Hardware bytes take from the same
  margin (`FiresNeedMargin`).
- *A retransmission that carries new bytes is never counted* (`CountIsExact`).
- *A backward acknowledgement is read as one 2^32 ahead* (`BackwardAckReadAhead`), hence the
  hypothesis that the peer does not go back.
- *The last MSS or window scale option may hang over the end of the option area*
  (`AcceptedAreEncodings`), and nothing stops the parser at the end of the frame. It reads past the
  received bytes if and only if they are whole options and the beginning of one more, begun inside
  the area (`OverrunsExactly`); an area of one byte can do either (`OneByteAreas`), and three bytes
  behind the area are enough (`NeverPastThreeBytes`), two are not (`TwoBytesAreTooFew`).
- *The BOE cancel template leaves its time field uncleared.* Its packets verify if and only if what
  they hold in those eight bytes vanishes modulo 65535 (`CancelBoeVerifiesExactly`), and some do not
  (`CancelBoeIsWrong`). Its counter field, used twice at opposite parities, is harmless
  (`CancelBoeWithTimeCleared`).
- *A packet shorter than its template leaves with a wrong checksum* for some register file, if a
  register byte lies behind its end (`CompletedVerifiesExactly`): new orders of less than 65 bytes of
  payload, replacements of less than 57 (`MoexFireNewPackets`, `MoexFireReplacePackets`).
- *The copy descriptor keeps 11 bits of the packet size* and 5 of the region (`NothingIsCut`).
- *The unrolled sum stops at 2046 bytes* of a buffer longer than 2047 (`UnrolledIsExact`).
- *`sanityCheckActionId` compares a local index with a global bound*, so it lets through an index
  whose slot meets a transmit buffer (`SanityCheckIsWeak`, `SanityCheckReachesTxBuffer`).
- *`subscribeSec` reports success for an id that a full row drops* (`SubscribeKeeps`).
- *Subscribing two ids of one row and hash aborts the program* while the row has room
  (`AbortsExactly`). The plain hash does this only for ids of rows * 2^16 and more
  (`HashErrorUnreachable`, `FarIdsCollide`); MIAX's takes eight bits and does it for the ids 0 and
  rows (`MiaxIdsCollide`).
- *`udp_checksum` returns zero* where RFC 768 sends all ones, zero meaning no checksum
  (`UdpChecksum`, `UdpChecksumCanBeZero`).
- *`mcJoin` answers a repeated join with the entry's place among all entries*, not with its index
  in the channel (`JoinAgain`).
- *`mcJoin` does not refuse the regions of the sessions.* The n-th join there aborts if session 2n or
  2n + 1 is live; otherwise it takes their actions, and the next socket that is given one of them
  aborts the program (`JoinAmongSessions`, `JoinBlocksSocket`).
- *`deleteAction` checks nothing*: an index that is not the region's own clears another region's
  slot (`DeleteIsOneChange`).
- *One more handle reaches session 0*: -32768 plus 128 for every core, through the cast to 8 bits
  (`HandleResolves`).
- *`push` accepts 1536 bytes, the data area holds 1528* (`CopyStaysInSlot`).

## Assumptions

- 64-bit counters do not wrap: they are unbounded here, and the peer's acknowledgements and the
  global counter are taken below 2^64 where a theorem needs it. 32-bit and 16-bit values wrap as
  in the source.
- The peer answers the SYN first, acknowledges only bytes that were on the wire, never goes back,
  advances by less than 2^32 at a time, and offers a window scale of at most 14 (section 2.3 of
  RFC 7323). It may do anything else. lwIP transmits only what it was given; the FPGA sends
  accepted payloads in order and feeds every packet back. `exc_active` stays true in a run.
- Feedback and receive channels are one queue per session. The driver's single queues allow only
  some of these orders, so safety carries over; the progress theorem reads the feedback in any order
  that a single queue may have.
- The FPGA adds every register byte that the two bitmaps select, whatever the packet's length, and
  fills in those that lie in the packet. A map entry below 8 names a byte of the packet's aligned
  eight, an entry of the checksum field the completed checksum, any other a register byte. The
  driver's code does not show this; what is said of packets shorter than their template, and of
  the arrays, rests on it.
- `on_error` ends the program: it is an outcome, or proved not to happen.

## Model

| member | source | states |
|---|---|---|
| SeqNum.Seq32To64Exact | src/EkaTcpSess.cpp:372-383 | the 64-bit reconstruction is exact if and only if the new number is less than 2^32 ahead |
| SeqNum.BaseIsSubtracted | src/EkaTcpSess.cpp:372-383 | the base offset only shifts the result |
| SeqNum.BackwardAckReadAhead | src/EkaTcpSess.cpp:538-541 | a number that goes back is read above everything sent |
| SeqNum.TcpSeqLtIsOrder | src/ekaNW.h:221 | the sequence comparison is the true order for numbers less than 2^31 apart (section 3.4 of RFC 9293) |
| FastPathInvariant.AckIsExact | src/EkaTcpSess.cpp:530-541 | along a run the reconstructed acknowledgement is the peer's own number |
| FastPathInvariant.ScaledWindowFits | src/EkaTcpSess.cpp:534-535 | the scaled window fits the 32-bit store |
| FastPath.Pow2Doubles | src/EkaTcpSess.cpp:534-535 | the factor of a scale is one, doubled once for every unit |
| FastPath.ShiftDoubles | src/EkaTcpSess.cpp:534-535 | scaling a window is doubling it once for every unit of the scale |
| FastPathInvariant.PutWndShifts | src/EkaTcpSess.cpp:534-535 | the receive thread stores the 16-bit window shifted by the scale, given as a chain of doublings and as a table of the scales 0 to 14 |
| FastPathInvariant.TrueWndIsShifted | src/EkaTcpSess.cpp:534-535 | so is what a segment offers, but for the SYN-ACK, whose window is not scaled |
| FastPathInvariant.LoadedEdgeOffered | src/EkaTcpSess.cpp:532-541 | a torn pair of acknowledgement and window never exceeds an edge that some segment offered |
| FastPathInvariant.RunInv | src/EkaTcpSess.cpp:530-839 | the invariant of all threads holds in every reachable state |
| FastPathTheorems.BytesAreConserved | src/EkaTcpSess.cpp:720-756 | counted bytes are the replayed, the queued and the accepted ones; wire bytes are those plus uncounted hardware bytes; transmitted <= handed to lwIP <= counted |
| FastPathTheorems.GlobalCountersSpread | src/EkaTcpSess.cpp:725-754 | the global backlog is the sum of the sessions' backlogs, up to additions half done, and never negative |
| FastPathWindow.CommittedStaysNearWindow | src/EkaTcpSess.cpp:760-839 | from any state in which no thread carries a load of the session, over every run: the committed bytes keep the margin below every offered edge, but for one payload of each sending thread less one and the hardware bytes since (section 3.8.6 of RFC 9293) |
| FastPathWindow.MarginKeepsInside | src/EkaTcpSess.cpp:774-797 | while those stale payloads and hardware bytes are at most the margin, the committed bytes are inside a window the peer really offered |
| FastPathWindow.FiresNeedMargin | src/EkaTcpSess.cpp:774-797 | for any number of sending threads and any budget of hardware bytes, the committed bytes stay inside on all runs if and only if the stale payloads and the budget together are at most the margin |
| FastPathWindow.ThreeThreadsLeaveWindow | src/EkaTcpSess.cpp:760-839 | a run of three threads that commits 4081 bytes where 3409 were offered |
| FastPathWindow.WindowNeedsTwoThreads | src/EkaTcpSess.cpp:760-839 | without hardware fires the committed bytes stay inside an offered window on all runs if and only if at most two threads send |
| FastPathTheorems.AckGate | src/EkaTcpSess.cpp:543-557 | no acknowledgement handed to lwIP, real or inserted, is beyond what lwIP transmitted; inserted ones strictly increase (section 3.10.7.4 of RFC 9293) |
| FastPathLimits.InsertedIsBelowPeer | src/EkaTcpSess.cpp:543-557 | whatever steps lie between the loads of one iteration, the inserted number is below the peer's if and only if lwIP transmitted less than was missing |
| FastPathProgress.BlockedGateHasWork | src/EkaTcpSess.cpp:543-557 | a closed gate always has work left that can open it |
| FastPathProgress.FinishDummyWrite | src/EkaTcpSess.cpp:732-756 | a dummy write can always be completed by the service thread alone, reading no other feedback |
| FastPathProgress.GateCanOpen | src/EkaTcpSess.cpp:543-557 | from every reachable state service thread and lwIP alone open the gate of a session, the service thread reading the feedback of all sessions in whatever order the driver's one queue has it |
| FastPathProgress.SomeOrder | src/EkaServThread.cpp:75-140 | in every state there is such an order |
| FastPathLimits.InsertedAckCanPassPeer | src/EkaTcpSess.cpp:545-549 | a reachable state in which an inserted acknowledgement has passed the peer |
| FastPathLimits.LimitNeedsDummyFirst | src/EkaTcpSess.cpp:800-835 | on all runs of any number of sessions and threads at most 8192 bytes, one payload per thread and one hardware packet are in flight, if and only if the dummy counter is loaded first |
| FastPathLimits.LateDummyLoadIsUnlimited | src/EkaTcpSess.cpp:800-803 | with the dummy counter loaded last one sender gets any number of payloads accepted that the send window allows, none of them sent |
| FastPathReportOnly.FireChangesFeedbackOnly | src/EkaServThread.cpp:114-123 | a report-only fire, and the reading of its feedback, change nothing but the feedback queue |
| FastPathReportOnly.FiresLeaveNoTrace | src/EkaServThread.cpp:114-123 | a report-only run ends, but for feedback of fires, where the same run without them ends |
| FastPathReportOnly.ReportOnlyFiresNothing | src/EkaServThread.cpp:114-123 | no byte is fired or counted for the hardware in any reachable report-only state |
| TcpSession.UninterruptedSend | src/EkaTcpSess.cpp:769-835 | the step system's sender, uninterrupted, decides as the object does and adds the same bytes |
| FastPath.LoadTakesWhatFits | src/EkaTcpSess.cpp:772-774 | whichever load comes first, the sender carries the whole payload or 1360 bytes of it |
| FastPath.WindowRule | src/EkaTcpSess.cpp:775-799 | a payload passes the window test if and only if it and 2048 bytes fit above the acknowledgement and into the window |
| FastPath.InFlightRule | src/EkaTcpSess.cpp:800-804 | the in-flight test passes up to 8192 bytes between the two global counters |
| FastPathTheorems.PartialDummyHoldsBack | src/EkaTcpSess.cpp:743-754 | in every reachable state a session whose dummy lwIP has taken in part accepts no payload, and without a dummy in progress only the window decides |
| TcpSession.EkaTcpSess.PreSendCheck | src/EkaTcpSess.cpp:760-839 | the result, errno and both counters in every case, the refused blocking send included; an accepted send takes all of the payload or 1360 bytes; EAGAIN exactly for back pressure, a payload that would leave less than 2048 bytes of the window, or more than 8192 bytes in flight |
| TcpSession.EkaTcpSess.LwipDummyWrite | src/EkaTcpSess.cpp:720-758 | all counters move by the packet's length when lwIP took it all; after a hard error the hardware bytes stay counted and unreplayed |
| TcpSession.WrittenWhenAllTaken | src/EkaTcpSess.cpp:729-751 | the write loop ends well if and only if lwIP took every byte before any hard error |
| TcpSession.FailsAtHardError | src/EkaTcpSess.cpp:729-741 | it fails, with the answer of lwip_write, if and only if a hard error comes before lwIP has taken every byte |
| SessionSteps.ReplayIsSteps | src/EkaTcpSess.cpp:720-758 | a replay that ends well is a run of the service thread's steps to the same counters, whatever lwIP took at a time |
| TcpSession.EkaTcpSess.SendStackEthFrame | src/EkaTcpSess.cpp:629-716 | for SYN, FIN, first acknowledgement, retransmission and dummy: the new fields and counters, the writes of the FPGA's context and what leaves, nothing while inactive and the size abort included |
| TcpSession.SynStarts | src/EkaTcpSess.cpp:630-642 | after a SYN at a position all counters and the FPGA's context stand one behind it, modulo 2^32 |
| TcpSession.FinPasses | src/EkaTcpSess.cpp:644-647 | a FIN leaves whole and changes nothing |
| TcpSession.FirstAckPasses | src/EkaTcpSess.cpp:649-657 | the answer to the SYN-ACK gives the context its number and window, moves no counter and leaves whole |
| TcpSession.ConnectionIsExact | src/EkaTcpSess.cpp:629-696 | from any fields: SYN, first acknowledgement and any segments in order end with the transmit counter at lwIP's position from SYN + 1 on and the context at SYN + 1, lwIP's last acknowledgement and its window; only the handshake and retransmissions reach the wire |
| SessionSteps.SynIsFresh | src/EkaTcpSess.cpp:630-642 | a SYN leaves the fields of a fresh session of the step system |
| TcpSession.CountIsExact | src/EkaTcpSess.cpp:659-695 | the transmit counter stays exact if and only if the segment is the next one or lies wholly before it |
| TcpSession.StackRunIsExact | src/EkaTcpSess.cpp:659-695 | over a run the counter is lwIP's 64-bit position, its low half the local sequence number, and only retransmissions reach the wire |
| TcpSession.NoAckIsLost | src/EkaTcpSess.cpp:671-685 | every acknowledgement number in a dropped frame is on the wire |
| TcpSession.ContextFollows | src/EkaTcpSess.cpp:671-679 | over a run the acknowledgement in the FPGA's context is that of lwIP's last new segment, its sequence number and window stay |
| SessionSteps.FramesAreTransmits | src/EkaTcpSess.cpp:659-695 | over a run of lwIP's segments the session makes exactly the transmit steps of the new ones |
| TcpSession.EkaTcpSess.UpdateRx | src/EkaTcpSess.cpp:530-569 | the stores, the window shifted by the scale among them, the numbers inserted while the segment is held back and whether it went through, on every sequence of values that the loads find |
| RxGate.InsertedRise | src/EkaTcpSess.cpp:545-549 | the inserted numbers strictly increase from the last one before |
| RxGate.InsertsAfresh | src/EkaTcpSess.cpp:545-549 | a value above the last number brings a new one, the value found next |
| RxGate.InsertedWereSeen | src/EkaTcpSess.cpp:545-549 | each was a value of the transmit counter, and the last one is remembered |
| RxGate.OpensWhenReached | src/EkaTcpSess.cpp:543-557 | a segment goes through once the counter has reached its number, and not before |
| SessionSteps.StoresAreSteps | src/EkaTcpSess.cpp:530-541 | the stores of a segment are the receive thread's first three steps |
| SessionSteps.GateIsSteps | src/EkaTcpSess.cpp:543-557 | for all values a rising counter takes, lwIP's transmissions and the receive thread's steps interleave to the loop's outcome |
| SessionSteps.DeliverIsStep | src/EkaTcpSess.cpp:559-567 | once the gate is open one step hands the segment on, and the SYN-ACK gives the session its scale |
| InsertedAck.InsertEmptyRemoteAck | src/EkaTcpSess.cpp:491-528 | an empty packet whose checksums both verify, acknowledging the number, all other header bytes those of the held segment, whose header length it keeps |
| InsertedAck.AckNoBytes | src/EkaTcpSess.cpp:512 | the number stands with its highest byte first |
| TcpSession.EkaTcpSess.ProcessSynAck | src/EkaTcpSess.cpp:385-489 | the option loop terminates and computes the parser's outcome, abort and overrun included |
| SynAck.ParseUndoesEncode | src/EkaTcpSess.cpp:414-471 | parsing any encoding of NOP, MSS and one tail gives the last MSS and the shift (section 3.2 of RFC 9293, section 2.2 of RFC 7323) |
| SynAck.TypicalOptions | src/EkaTcpSess.cpp:414-471 | the options most peers send: an MSS, a filler and a scale, in figures |
| SynAck.EndByte | src/EkaTcpSess.cpp:414-425 | an end-of-list byte is accepted as the last byte of the area only |
| SynAck.WholeAreaFits | src/EkaTcpSess.cpp:396-398 | an option area that is one encoding satisfies the parser's bounds |
| SynAck.AcceptedAreEncodings | src/EkaTcpSess.cpp:414-471 | the parser accepts an area if and only if it is such an encoding |
| SynAck.OverrunsExactly | src/EkaTcpSess.cpp:414-471 | the parser reads past the received bytes if and only if they are whole options and the cut beginning of one more, begun inside the area |
| SynAck.NeverPastThreeBytes | src/EkaTcpSess.cpp:414-471 | with three bytes behind the option area it never does |
| SynAck.TwoBytesAreTooFew | src/EkaTcpSess.cpp:414-471 | an area of any length with two bytes behind it that does |
| SynAck.OneByteAreas | src/EkaTcpSess.cpp:434-451 | an area of one byte that is read past, and one whose MSS hangs over its end |
| Checksum.FoldPseudoCsum | src/EkaCsumSSE.h:419-432 | the carry loop terminates with the complement of the value modulo 65535, zero only for zero |
| Checksum.FoldIsCongruent | src/EkaPacket.cpp:25-37 | folding keeps the value modulo 65535 |
| Checksum.FoldStep | src/EkaPacket.cpp:25-37 | one carry step keeps the folded value |
| Checksum.TwoFolds | src/EkaPacket.cpp:52-56 | two folds are the full fold below 2^32 |
| Checksum.PseudoCsum | src/EkaPacket.cpp:61-77 | the loop computes the zero-padded word sum, below 2^32 up to 2^17 bytes |
| Checksum.Csum | src/EkaPacket.cpp:39-59 | the two-fold checksum is the full one up to 2^17 bytes |
| Checksum.PseudoCsumUnrolled | src/EkaCsumSSE.h:293-383 | the unrolled blocks compute the plain sum up to 2047 bytes, without overflow |
| Checksum.UnrolledIsExact | src/EkaCsumSSE.h:293-383 | it is the sum of the whole buffer if and only if that is at most 2047 bytes long or zero from byte 2046 on |
| Checksum.ByteOrderIndependence | src/EkaCsumSSE.h:385-406 | summing in the other byte order swaps the result (section 2 of RFC 1071) |
| Checksum.InsertedChecksumVerifies | src/EkaPacket.cpp:153-172 | with the complement in the zeroed field the sum is all ones |
| ChecksumSse.SwapsSumBlock | src/EkaCsumSSE.h:41-72 | the two shuffles put each network-order word of a register in one lane |
| ChecksumSse.ShiftsMask | src/EkaCsumSSE.h:25-40 | the two shifts keep the bytes of the buffer and clear what was read past it |
| ChecksumSse.CsumOc16Sse | src/EkaCsumSSE.h:74-164 | the lane loops and the masked tail compute the big-endian word sum, whatever lies behind the buffer |
| ChecksumSse.IpChecksumSse | src/EkaCsumSSE.h:178-192 | the result is the byte swap of the plain checksum of the same bytes |
| PseudoChecksum.EkaPseudoTcpCsum | src/EkaCsumSSE.h:409-417 | the reference pseudo-header sum for segments up to 2047 bytes |
| PseudoChecksum.CalculatePseudoTcpChecksumOld | src/EkaCsumSSE.h:218-245 | the reference pseudo-header sum |
| PseudoChecksum.CalcPseudoCsum | src/EkaPacket.cpp:79-104 | the reference pseudo-header sum, over a copy |
| PseudoChecksum.CalcEmptyPktPseudoCsum | src/EkaPacket.cpp:111-137 | the reference pseudo-header sum of an empty segment |
| PseudoChecksum.EkaPseudoTcpCsumIntel | src/EkaCsumSSE.h:195-215 | a number that folds to the byte swap of the reference sum |
| PseudoChecksum.EkaTcpCsum | src/EkaCsumSSE.h:435-440 | the folded complement of the reference sum |
| PseudoChecksum.TcpChecksumVerifies | src/EkaTcpSess.cpp:508-515 | that value in the zeroed field makes a receiver's sum all ones |
| PseudoChecksum.UdpChecksum | src/EkaPacket.cpp:179-214 | the complement of the folded sum for every length, the conditional fold preventing overflow; it is the value of RFC 768 if and only if the sum is no multiple of 65535, and zero otherwise |
| PseudoChecksum.UdpChecksumCanBeZero | src/EkaPacket.cpp:179-214 | a datagram for which it is zero where the RFC sends all ones |
| PseudoChecksum.CreateIgmpPkt | src/EkaPacket.cpp:139-174 | every byte of Ethernet and IP header and of the message, router alert included, with IP and IGMP checksums that verify (section 2 of RFC 2236) |
| Template.FieldStarts | src/EpmHwFieldsMap.h:81-107 | running starts of the register fields |
| Template.FieldsAreDisjoint | src/EpmHwFieldsMap.h:81-107 | register fields do not overlap and are addressable by one byte |
| Template.LayoutAt | src/EpmTemplate.cpp:22-61 | each template field occupies the bytes from its offset on |
| Template.EpmTemplate.SetCsBitmap | src/EpmTemplate.h:72-90 | one register byte joins the bitmap of its parity, and no other bit changes |
| Template.EpmTemplate.Init | src/EpmTemplate.cpp:15-101 | for every field and byte the map entry: its register byte, last one first unless swapped, or its place among eight; a bitmap holds a register byte exactly if some field brings it to that parity; the size |
| Template.EpmTemplate.ClearHwFields | src/EpmTemplate.cpp:104-121 | exactly the fields marked for clearing become zero, byte by byte of every field |
| TemplateChecksum.HardwareFillIsRight | src/EpmTemplate.cpp:28-61 | for every packet and register file the hardware's sum is the filled packet's, if and only if the template is well formed |
| TemplateChecksum.PartialSumCompletes | src/EkaEpmAction.cpp:736-739 | the partial sum of the cleared image plus the hardware's additions is the reference sum of what goes out |
| TemplateChecksum.HardwareChecksumVerifies | src/EkaEpmAction.cpp:794-800 | the checksum the FPGA completes verifies at the receiver |
| TemplateReceiver.RightModuloExactly | src/EpmTemplate.cpp:28-61 | the hardware's sum is right modulo 65535 for every packet and register file if and only if every register byte is cleared and its excess vanishes modulo 65535 |
| TemplateReceiver.FullPacketsVerifyExactly | src/EkaEpmAction.cpp:736-739 | full packets of a template verify at the receiver, whatever the registers hold, if and only if that is so |
| TemplateReceiver.PacketVerifiesExactly | src/EkaEpmAction.cpp:794-800 | a packet of a well-formed template verifies, whatever the registers hold, if and only if it reaches over every register byte |
| PacketOnWire.CompletedVerifiesExactly | src/EkaEpmAction.cpp:778-803 | a packet of any length, handed over with its partial sum and completed by the FPGA, is taken for a TCP packet and verifies, whatever the registers hold, if and only if its header says TCP and it reaches over every register byte |
| TemplateArrays.MapFills | src/EpmTemplate.cpp:45-56 | filling a packet by the byte map gives the completed packet, checksum field included |
| TemplateArrays.BitmapsSum | src/EpmTemplate.h:72-90 | the register bytes that the two bitmaps select have the sum that the hardware adds |
| TemplateArrays.DriverMapsApart | src/EpmHwFieldsMap.h:81-107 | in the driver's templates no register byte is taken for an immediate or for the checksum |
| TemplateArrays.EmittedVerifiesExactly | src/EpmTemplate.cpp:15-101 | so the packet that the arrays of an initialized template make verifies exactly as the completed one does |
| TemplateArrays.DriverPayloadsArePlain | src/EpmTemplate.cpp:45-56 | this holds for all the driver's payloads |
| TemplateArrays.FireNewEmits | src/EpmMoexFireNewTemplate.h:8-76 | new orders made by the arrays verify exactly from 65 bytes of payload on |
| TemplateMaps.FireNewSources | src/EpmMoexFireNewTemplate.h:8-76 | which register bytes each late field of a new order takes, in figures |
| TemplateMaps.FireReplaceSources | src/EpmMoexFireReplaceTemplate.h:8-69 | the same for a replacement |
| TemplateMaps.CancelBoeSources | src/EpmCancelBoeTemplate.h:1-70 | the same for a cancel, which takes the counter twice |
| TemplateInstances.FieldsOkIsWellFormed | src/EpmTemplate.cpp:22-61 | a test on fields that implies well-formedness |
| TemplateInstances.MoexFireNewVerifies | src/EpmMoexFireNewTemplate.h:8-76 | every packet that fills the template verifies at the receiver, whatever the registers hold |
| TemplateInstances.MoexFireReplaceVerifies | src/EpmMoexFireReplaceTemplate.h:8-69 | every packet that fills the template verifies at the receiver, whatever the registers hold |
| TemplateInstances.FastPathVerifies | src/EpmFastPathTemplate.h:1-48 | the same, and the template fills a frame |
| TemplateInstances.CancelBoeVerifiesExactly | src/EpmCancelBoeTemplate.h:1-70 | a full packet verifies if and only if the network words of its eight time bytes sum to a multiple of 65535 |
| TemplateInstances.CancelBoeIsWrong | src/EpmCancelBoeTemplate.h:1-70 | a packet and a register file whose receiver's sum is not all ones |
| TemplateInstances.CancelBoeWithTimeCleared | src/EpmCancelBoeTemplate.h:1-70 | with that field cleared every full packet verifies, although the counter goes in twice |
| DriverPackets.MoexFireNewPackets | src/EpmMoexFireNewTemplate.h:8-76 | an action's image may use the template, and exactly the packets of 65 bytes of payload or more verify for every register file |
| DriverPackets.MoexFireReplacePackets | src/EpmMoexFireReplaceTemplate.h:8-69 | the same from 57 bytes on |
| DriverPackets.FastPathPackets | src/EpmFastPathTemplate.h:1-48 | the same for every length and every slot |
| DriverPackets.CancelBoeFits | src/EpmCancelBoeTemplate.h:1-70 | the image invariant holds for the template although its sums are wrong |
| PacketImage.EkaEpmAction.SetIpTtl | src/EkaEpmAction.cpp:110-132 | TTL and IP id of the action types that fix them, byte by byte; nothing else changes |
| PacketImage.ActionTypeTables | src/EkaEpmAction.cpp:110-156 | which action types have a fixed TTL and which take their size from the action: they differ in one |
| PacketImage.EkaEpmAction.SetNwHdrs | src/EkaEpmAction.cpp:530-592 | from construction on: every header byte in figures, IP checksum verifying, register bytes zero, partial sum right; completed by the FPGA it verifies as a TCP packet if and only if it reaches over every register byte |
| PacketImage.EkaEpmAction.SetPayload | src/EkaEpmAction.cpp:703-748 | image and sums right after a payload of any length, which the image holds, the headers kept but for length and checksum; the size abort, and when the copy leaves the slot |
| PacketImage.EkaEpmAction.SetPktPayloadAndSendWC | src/EkaEpmAction.cpp:778-803 | the same, the action's payload length kept, for what is handed to the FPGA |
| PacketImage.GoodVerifiesExactly | src/EkaEpmAction.cpp:794-800 | the image invariant is enough for the completed packet to verify, exactly when its header says TCP and the packet reaches over every register byte |
| PacketImage.HeadersAreGood | src/EkaEpmAction.cpp:530-592 | writing headers over any made image gives a good one (section 3.1 of RFC 791) |
| PacketImage.HeadersCarryAddresses | src/EkaEpmAction.cpp:543-580 | every byte of the three headers, the IP checksum apart, is that of the header formats, with the addresses, ports and length given (section 3.1 of RFC 791, section 3.1 of RFC 9293) |
| PacketImage.PayloadIsGood | src/EkaEpmAction.cpp:724-746 | writing a payload gives a good image that holds it |
| PacketImage.PayloadLeavesHeader | src/EkaEpmAction.cpp:724-746 | it keeps every other header byte, so a TCP packet stays one |
| PacketImage.SentIsUpdated | src/EkaEpmAction.cpp:778-803 | the send path, in its other order of writes, leaves the image of the update path |
| PacketImage.IpSumVerifies | src/EkaEpmAction.cpp:576-578 | the stored IP checksum verifies |
| PacketImage.TtlAgain | src/EkaEpmAction.cpp:110-132 | why the checksum may be computed before the TTL is written |
| EpmRegion.GetBaseActionIdx | src/EkaEpmRegion.h:161-168 | actions of the regions before |
| EpmRegion.GetBaseHeapOffs | src/EkaEpmRegion.h:190-198 | heap bytes of the regions before |
| EpmRegion.GetTotalActions | src/EkaEpmRegion.h:175-180 | actions of all regions |
| EpmRegion.GetMaxActionsPerRegion | src/EkaEpmRegion.h:182-188 | the maximum, attained |
| EpmRegion.GeWcChByOffs | src/EkaEpmRegion.h:200-212 | the channel of the one region that holds the offset, an error exactly outside the heap |
| EpmRegion.IndexRoundTrip | src/EkaEpm.cpp:223-224 | region and local index map one to one onto the numbers below the total |
| EpmRegion.SlotsInOrder | src/EkaEpmRegion.h:229-236 | numbers and slots follow each other without a gap, region by region |
| EpmRegion.SanityCheckIsWeak | src/EkaEpmRegion.h:149-159 | which indices the check lets through although they are not local |
| EpmRegion.SlotHasRegionChannel | src/EkaEpmRegion.h:229-236 | a slot lies in its region, and its channel is the region's, if and only if the index is local |
| EpmRegion.SlotsAreDisjoint | src/EkaEpmRegion.h:229-236 | no two slots share a byte |
| EpmRegion.CopiesStayInSlot | src/EkaWc.h:58-59 | rounded copies stay in every slot if and only if the budget is a multiple of 64 |
| EpmRegion.DriverTotals | src/EkaEpmRegion.h:48-113 | 6912 actions and 5341184 heap bytes |
| EpmRegion.DriverRow | src/EkaEpmRegion.h:48-113 | actions, budget and channel of every row in figures; every budget is a multiple of 64 and every channel exists |
| EpmRegion.TxBuffersAreApart | src/EkaWc.h:71-72 | no slot of a local index meets a transmit buffer, nor do the two meet; their addresses |
| EpmRegion.SanityCheckReachesTxBuffer | src/EkaEpmRegion.h:149-159 | an accepted index whose slot holds the start of a transmit buffer |
| WcDescriptor.DescRoundTrip | src/EkaWc.h:131-164 | what the FPGA reads of a descriptor is what was written |
| WcDescriptor.DescLayout | src/EkaWc.h:131-153 | where each field lies in the sixteen bytes |
| WcDescriptor.NothingIsCut | src/EkaWc.h:131-153 | its bit fields cut nothing if and only if the packet is shorter than 2048 bytes and region and address fit |
| WcDescriptor.LoadedLands | src/EkaWc.h:54-59 | a loaded window brings its payload to the heap address |
| WcDescriptor.LoadedPlaces | src/EkaWc.h:39-59 | descriptor and payload lie 2048 bytes apart from channel to channel, the payload 64 bytes in, and nothing else is written |
| WcDescriptor.LoadedIsLocal | src/EkaWc.h:39-59 | up to 1984 bytes no other channel's window changes |
| WcCopy.EkaWc.EpmCopyWcBuf | src/EkaWc.h:28-64 | descriptor and rounded bytes in the window of the region's channel, nothing else changed |
| WcCopy.EkaWc.EpmCopyAndSendWcBuf | src/EkaWc.h:66-97 | the same for a send, to one transmit buffer, and the next send uses the other |
| WcCopy.AtomicCopy | src/EkaWc.h:99-112 | the word loop copies the bytes |
| WcCopy.CopyReadsBack | src/EkaWc.h:28-64 | the slot holds the packet |
| WcCopy.CopyIsLocal | src/EkaWc.h:28-64 | no other action's slot changes |
| WcCopy.DriverCopy | src/EkaEpmAction.h:82-86 | for the driver's table, window and heap together: the packet is in its slot of the FPGA's heap and no other slot has changed |
| WcCopy.SendIsLocal | src/EkaWc.h:66-97 | a send goes out as the action it names, and changes no slot and not the other buffer |
| ActionTable.HandleResolves | src/Exc.cpp:235-250 | exactly which 16-bit handles reach a session |
| ActionTable.AddActionExactly | src/EkaEpm.cpp:207-239 | an action is added if and only if region, kind, number and slot permit, the first that does not being reported |
| ActionTable.DeleteIsOneChange | src/EkaEpm.cpp:241-264 | one action is cleared and no other changes; it is the named one if and only if the index is the region's own |
| ActionTableRuns.RunKeeps | src/EkaEpm.cpp:207-239 | over every run of opens, closes, joins and allocations the tables stay right, and no slot is ever found taken, no index bad, no region wrong |
| ActionTableRuns.SlotsFollowSessions | src/EkaTcpSess.cpp:86-111 | a session's two actions exist, each of its kind, if and only if it is live, and its handle leads back to it |
| ActionTableRuns.SlotsFollowJoins | src/EkaIgmpEntry.cpp:11-69 | in every region but those of the sessions, and below the user's own actions, an action exists if and only if it is the join or leave of an entry whose core sends them |
| ActionTableRuns.StartIsRight | src/EkaEpm.h:220-224 | the empty tables are right, with the first 256 user actions reserved |
| ActionTableRuns.OpenKeeps | src/Exc.cpp:300-323 | opening aborts if and only if the core's 31 sessions are taken, and makes a free one live otherwise |
| ActionTableRuns.DropKeeps | src/EkaTcpSess.cpp:318-338 | closing takes the session's actions out and leaves every other slot as it was due |
| ActionTableEffects.HandleCloses | src/Exc.cpp:450-470 | a handle closes its session and frees both actions if it is live, and answers -1 if not |
| ActionTableEffects.OtherHandlesDoNothing | src/Exc.cpp:235-250 | every other handle, but the second one of session 0, closes nothing |
| ActionTableEffects.CloseUndoesOpen | src/Exc.cpp:325-347 | closing the session a socket was given, by handle or in two steps, leads back to the very tables before the open |
| ActionTableRuns.IdsAreNeverReused | src/EkaEpm.cpp:267-287 | a run hands out consecutive ids |
| ActionTableRuns.JoinKeeps | src/EkaIgmp.cpp:50-95 | in every region but those of the sessions a join takes free actions, and aborts only on full tables or a missing region |
| ActionTableEffects.JoinEnters | src/EkaIgmp.cpp:50-95 | a join that does not abort appends its entry under the next number of its region and answers that number, or changes nothing if the core has joined already |
| ActionTableEffects.JoinRefuses | src/EkaIgmp.cpp:66-74 | a new entry is refused exactly in a region, or on a core, that has 64 already |
| ActionTableRuns.JoinAmongSessions | src/EkaIgmp.cpp:50-95 | in those two the n-th join aborts on a taken slot if and only if session 2n or 2n + 1 is live; otherwise it takes their actions, and neither session can be made any more |
| ActionTableRuns.JoinBlocksSocket | src/Exc.cpp:300-323 | the next socket that is given one of them aborts on a taken slot |
| ActionTableRuns.EntriesFit | src/EkaIgmp.cpp:56-92 | entries are distinct, have their own index in their region, and fit their array |
| ActionTableRuns.JoinAgain | src/EkaIgmp.cpp:56-64 | when a repeated join answers with the index in the region |
| ActionTableRuns.DriverTableSuits | src/EkaEpmRegion.h:48-113 | the driver's regions are large enough for all of it |
| ActionObjects.EkaEpm.AddAction | src/EkaEpm.cpp:207-239 | the table's new contents, or which abort |
| ActionObjects.EkaEpm.DeleteAction | src/EkaEpm.cpp:241-264 | the step on values, for every index inside the table |
| ActionObjects.EkaEpm.AllocateAction | src/EkaEpm.cpp:267-287 | the step on values |
| ActionObjects.EkaCore.GetFreeTcpSess | src/EkaCore.cpp:161-171 | the first free session |
| ActionObjects.EkaIgmp.McJoin | src/EkaIgmp.cpp:50-95 | the step on values: entries, counters, actions and answer, or which abort |
| HashTable.SubscribeKeeps | src/EkaHashEng.h:39-55 | the id is stored if and only if its row has room or held it, nothing else changes, the count is exact |
| HashTable.SubscribeAllOk | src/EkaHashEng.h:39-55 | rows, hashes and count are right after every list of subscriptions |
| HashTable.TableIsSet | src/EkaHashEng.h:39-55 | while no row is asked for too many ids the table is the set of the ids subscribed |
| HashTable.RowHolds | src/EkaHashEngLine.h:13-44 | a row holds only ids subscribed, and all of its own while it has room left or is not asked for too many |
| HashTable.AbortsExactly | src/EkaHashEngLine.h:21-31 | over every list of calls and for both hashes, the abort is reached if and only if some call finds room in its row and an earlier id of the row with its hash |
| HashTable.AbortsOnClash | src/EkaHashEngLine.h:21-31 | while no row is asked for too many ids, if and only if two of the ids have row and hash in common |
| HashTable.HashErrorUnreachable | src/EkaHashEngLine.h:83-91 | with the plain hash, ids below rows * 2^16 never reach it |
| HashTable.FarIdsCollide | src/EkaHashEngLine.h:83-91 | with the plain hash, two ids rows * 2^16 apart do |
| HashTable.MiaxIdsCollide | src/EkaHashEngLine.h:83-91 | with MIAX's hash, the ids 0 and rows do |
| HashTable.MiaxHash | src/EkaHashEngLine.h:83-91 | MIAX's hash is the fourth byte of the id |
| HashTable.IdsAreNumbered | src/EkaHashEngLine.h:46-52 | subscription ids number the stored securities one to one from zero |
| HashTable.LineUnpacks | src/EkaHashEngLine.h:55-63 | a packed line holds the ids before it in 24 bits, its count above them, its hashes and then zeros |
| HashTable.LookupAgrees | src/EkaHashEngLine.h:55-63 | the packed lookup gives that id if and only if no other id of the row has the hash |
| HashTable.PackedTableIsFaithful | src/EkaHashEng.h:58-63 | for both hashes and every list of subscriptions in which no two ids, nor one of them and the id asked for, have row and hash in common: packing and looking up is asking the table |
| HashTable.PlainTableIsFaithful | src/EkaHashEng.h:58-63 | with the plain hash that is every list of ids below rows * 2^16 |
| HashEngine.EkaHashEngLine.AddSecurity | src/EkaHashEngLine.h:13-44 | the row's new ids, and why an id was not added |
| HashEngine.EkaHashEngLine.PackLine | src/EkaHashEngLine.h:55-63 | attribute and columns of the packed line |
| HashEngine.EkaHashEng.SubscribeSec | src/EkaHashEng.h:39-55 | table, count and result of the step on values |
| HashEngine.EkaHashEng.PackDB | src/EkaHashEng.h:58-63 | every line packed with the ids of the rows before it |
| HashEngine.EkaHashEng.GetSubscriptionId | src/EkaHashEng.h:32-35 | once packed, the table's subscription id |
| ReportQueue.CopyStaysInSlot | src/EkaUserReportQ.cpp:54-64 | a copy stays in its slot if and only if it has at most 1528 bytes |
| ReportQueue.RunIsFifo | src/EkaUserReportQ.cpp:46-88 | over every run the ring is a FIFO, and the slot popped last keeps its packet under any pushes |
| ReportQueue.AbortsOnlyAtTheEnds | src/EkaUserReportQ.cpp:46-88 | push fails exactly when all slots but one are held, pop exactly when none is |
| ReportQueue.CheckComparesInOrder | src/EkaFireReportThread.cpp:102-129 | the index check compares the k-th report with the k-th packet, whatever is pushed meanwhile |
| ReportQueue.IndexIsRead | src/EkaHwInternalStructs.h:366-372 | the index is the four bytes behind type and length, lowest first |
| ReportQueue.EkaUserReportQ.PushElem | src/EkaUserReportQ.cpp:46-71 | the ring's whole new state |
| ReportQueue.EkaUserReportQ.PopElem | src/EkaUserReportQ.cpp:74-88 | the ring's whole new state, and the slot returned |

## Left out

- GateCanOpen: lwIP takes all that it is offered; that one session's wait loop holds up the single receive thread for the others is not modelled.
- LwipDummyWrite: takes the answers of lwip_write as a list and `exc_active` as constant during the call; inside the step system the error exit and shutdown do not occur.
- SetPayload: the copy of a payload that leaves the slot is an outcome, as the size abort is; what the source does from there on is not modelled.
- SetPktPayloadAndSendWC: likewise.
- UpdateRx: takes the values of its loads as a list and `exc_active` as constant during the call; what it inserts are numbers, each the argument of `InsertEmptyRemoteAck`.
- SubscribeSec: says nothing of the table after an abort.
- McJoin: says nothing of the tables after an abort.
- EkaEpmAction: only TCP actions and the three calls above; UDP and raw frames, `preloadFullPkt` and `sendFullPkt` do not maintain the TCP sum.
- CsumOc16Sse: vector registers are sequences of bytes and lanes; alignment and prefetching are not modelled.
- EpmTemplate: bitmap rows hold 16 bits each; template and bitmap download is not modelled.
- EkaWc: the per-channel spin flag; that copies go through one channel one at a time is taken from it. What the FPGA does with a loaded window is taken to be one step.
- ActionTableRuns: creation and deletion of a session are steps on values; all four cores exist with TCP enabled, a session is closed once, and joins stay out of the two regions of the sessions (`JoinAmongSessions` shows why).
- EkaHashEng: the array of line pointers, filled once, is a sequence of line objects; rows are a power of two, as the row mask needs.
- EkaUserReportQ: one producer and one consumer, as in the driver, and 64-bit counts that do not wrap; what `pushFiredPkt` copies behind the index check is not modelled.
- The older `EkaHwHashTableLine`, whose rows behave as those of `EkaHashEngLine`.
- Blocking emulation, socket options, polling, ioctl, ARP, lwIP's internals, DMA channels and register I/O.
- Strategy logic in the FPGA, arming, watchdog, report formats, logging and tools.
- Leaving groups, and teardown with `exc_active` false, where the counters are not meant to balance.
