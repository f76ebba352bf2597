# NeuroSpark kernel: verified core

A Dafny model of the parts of the NeuroSpark x86 kernel that carry its hard
invariants, with proofs about every run or every input:

- **IPv4 and TCP** (`kernel/net.c`): the one's-complement checksum, the header and
  segment codecs, fragmentation and bitmap reassembly, and the TCP state machine
  with its back-off retransmission, run by two endpoints over a channel that drops,
  duplicates and reorders.
- **Scheduler, wait queues and IPC** (`kernel/scheduler.c`): aging priorities,
  round-robin tie-breaks, ring wait queues and bounded channels, as atomic steps.
- **Page cache and disk batches** (`kernel/page_cache.c`, `kernel/disk.c`): each
  observably equal to the plain disk it speeds up.
- **ext2** (`kernel/ext2fs.c`): block bitmaps, inodes, direct and indirect block
  maps, files as byte sequences, directories as finite maps.
- **Physical memory** (`kernel/pmm.c`, `kernel/paging.c`): the page bitmap, the slab
  allocator, and cloning and destroying two-level address spaces.

State the kernel updates in place is a class (`Tcp.Slot`, `Reassembly.Reassembler`,
`Scheduler.TaskTable`, `IpcRings.Channel`, `PageCache.Cache`, `DiskBatch.Scheduler`,
`Ext2Alloc.Store`, `Ext2File.Fs`, `Pmm.Allocator`,
`AddressSpace.Mmu`, `Slab.Allocation`). The methods are proved against functions or
abstract views, and the properties are proved about those. Time, the success of an
I/O call or a NIC send, and injected packet loss are parameters, so every theorem
holds for each choice of them.

Some promises are false of the code as written. For these the model keeps the code,
shows an input on which it fails, and proves exactly when it does what is meant:

- `net_tcp_recv` drops the rest of a segment that does not fit the caller's buffer:
  the stream stays intact if and only if the head segment fits
  (`TcpSystem.ReadIntactIff`, `TcpSystem.ShortReadLoses`).
- The acknowledgement tests compare raw 32-bit numbers: of all acknowledgements the peer
  can have sent, exactly the one for everything ends the wait, or frees a closing slot, if
  and only if the numbers from the first byte's on do not wrap (`TcpAck.AckTestExactIff`,
  `TcpAck.ClosingTestExactIff`; `TcpExamples.OldAckFreesSlot` is a run in which a repeated
  SYN|ACK frees a closing slot before the peer saw the FIN).
- Only the last segment is kept for retransmission, and neither `net_tcp_send` nor
  `net_tcp_close` waits for the one before it. An accepted byte is sent again in some
  continuation if and only if the kept segment carries it, is still waited for and has
  retries left; otherwise, if no copy sent before arrives, the peer's stream stops there for
  good (`TcpStall.SentAgainIff`, `TcpStall.StreamStalls`; in
  `TcpExamples.FirstByteGivenUp` the first of two bytes is given up before it arrived).
- `dir_add_entry` stores a NUL behind the name, and does not clear a block it grows into
  before scanning it. The new directory is well-formed and the intended one if and only
  if the name does not fill its room in front of a record whose inode number has a
  non-zero low byte, and the scan takes no record of a grown block's old contents, or only
  an echo of the very binding that is added. Which block it grows into, and so what that
  block holds, is settled by the block map and the bitmaps before the call
  (`Ext2DirFile.Add`, `Ext2Map.YieldsIff`, `Ext2Examples.FillingNameDamages`,
  `Ext2Examples.OldContentsHarm`).
- `disk_process_batch` leaves the order entry of a request with a null buffer unset: the
  batch uses only indices of its own requests, whatever the stack held, if and only if no
  buffer is null (`DiskBatch.SafeIff`, `DiskBatch.NullBufferStrays`); and an old index that
  is in range can execute a write again (`DiskBatch.OldIndexUndoesWrite`).
- A blocked task is resumed at once if and only if no task is READY after the sleepers
  were woken (`IpcSafety.BlockedResumesIff`, `IpcSafety.LoneTaskResumes`).
- `task_sleep` keeps a wrapped wake tick: a task sleeps exactly the ticks it asked for if and
  only if the tick counter does not wrap meanwhile; at the wrap it never wakes, beyond it it
  does not sleep (`Aging.SleepExactIff`, `Aging.NeverWakes`).
- The kernel writes directories, tables and slab pages at their physical addresses, of
  which only the first 8 MB are mapped. A clone faults if and only if the directory or a
  table gets a frame above them; otherwise it fails if and only if fewer frames are free
  than the source needs (`AddressSpace.Mmu.Clone`). The frames are handed out from the
  lowest up, so both conditions are counts that can be read off before the call
  (`AddressSpace.FaultsAtDirectory` and `AddressSpace.OneTableFaults` are states that fault).
- Prefix safety holds for streams that have together with their FIN at most 2^32 - 1
  numbers. That bound is sharp: after 2^32 - 1 bytes a FIN makes the peer expect the number
  of the first byte again, and the first segment is taken twice (`TcpSystem.PrefixSafety`,
  `TcpExamples.BoundIsSharp`).

`dafny verify dfyconfig.toml` checks the whole project.

## Model

| member | source | states |
|---|---|---|
| `Checksum.ComputeChecksum` | kernel/net.c:1104-1117 | the 32-bit loop with carry folding computes the one's-complement checksum of section 1 of RFC 1071 for every length up to 131074, odd lengths included |
| `Checksum.FoldCarries` | kernel/net.c:1113-1115 | folding the carries yields the one's-complement residue of the sum |
| `Checksum.VerifiesIff` | kernel/net.c:1104-1117 | a buffer checksums to 0 exactly when its word total is a positive multiple of 65535 |
| `Checksum.StoredChecksumVerifies` | kernel/net.c:1104-1117 | with a zeroed even-offset field, storing `v` makes the buffer verify if and only if `v` is the computed checksum (or the other zero) |
| `Checksum.WordErrorDetected` | kernel/net.c:1104-1117 | replacing one word of a verifying buffer is detected unless it swaps 0 and 0xFFFF |
| `Ipv4.Checksummed` | kernel/net.c:1298-1298 | zeroing the field and storing the checksum makes the bytes verify and changes nothing else |
| `Ipv4.HeaderFields` | kernel/net.c:1288-1298 | every field of a built header is at its offset and reads back |
| `Ipv4.BuiltIsAccepted` | kernel/net.c:1442-1490 | every packet built here, with any Ethernet padding behind it, passes the receive checks with its fields and payload intact |
| `Ipv4.CorruptIsRefused` | kernel/net.c:1442-1490 | a built packet with one header word changed, the first and 0 for 0xFFFF excepted, is refused |
| `Ipv4.ForwardedIsAccepted` | kernel/net.c:1370-1415 | forwarding decrements the TTL, changes only TTL and checksum, and the result passes the receive checks |
| `Ipv4.HopLimit` | kernel/net.c:1370-1415 | along any chain of routers a packet loses one of its TTL at each, and is forwarded on exactly while more than 1 is left, so at most TTL - 1 times |
| `Ipv4.SendRaw` | kernel/net.c:1260-1368 | one whole packet if it fits the MTU, otherwise exactly the list of 1480-byte fragments in order |
| `Ipv4.CutsAreFragments` | kernel/net.c:1314-1365 | the running-offset loop cuts fragment `k` at `1480 k` with the right offset field and more-fragments flag |
| `Ipv4.WireFields` | kernel/net.c:1280-1300 | whole packets and fragments carry the datagram's addresses, protocol, identification and TTL and their own length on the wire |
| `Reassembly.Reassembler.Receive` | kernel/net.c:1148-1258 | the slot table and the output after a fragment are those of the reassembly function, about which TimeoutLaw, FragmentsReassemble and LateFragmentStartsOver speak |
| `Reassembly.Reassembler.CollectExpired` | kernel/net.c:1119-1128 | exactly the used slots last touched more than 300 ticks ago are freed (see TimeoutLaw) |
| `Reassembly.Reassembler.FindSlot` | kernel/net.c:1173-1195 | the matching slot, else a free one, else the oldest |
| `Reassembly.MarkBlocks` | kernel/net.c:1220-1226 | exactly the blocks of the fragment are added to the present bitmap |
| `Reassembly.Reassembler.AllPresent` | kernel/net.c:1238-1245 | the scan answers whether every 8-byte block up to the total length is present |
| `Reassembly.Reassembler.Store` | kernel/net.c:1210-1232 | payload, bitmap, total length and first header after one fragment |
| `Reassembly.ChosenIsPlaced` | kernel/net.c:1173-1195 | the fragment goes to the current slot of its datagram, else to the first slot that is not current, and only if all are current and none matches to the first with the smallest stamp |
| `Reassembly.TimeoutLaw` | kernel/net.c:1119-1232 | after an accepted fragment no used slot is older than 300 ticks on the wrapping clock; slots not older than that are untouched, older ones are free, and the slot chosen, unless it was current and the datagram's, holds this fragment's blocks, header and length and no others |
| `RoundTrip.WireArrives` | kernel/net.c:1314-1365 | each fragment on the wire passes the receive checks as the fragment it was cut as |
| `RoundTrip.FillTracks` | kernel/net.c:1210-1232 | a slot that holds a set of fragments holds that set with one more after storing it |
| `RoundTrip.CompleteIff` | kernel/net.c:1234-1245 | the completion test holds exactly when every fragment has been stored |
| `RoundTrip.AssembledIsWhole` | kernel/net.c:1247-1257 | the assembled packet is byte for byte the one an unfragmented send would have put on the wire |
| `RoundTrip.OwnStep` | kernel/net.c:1148-1258 | one arrival of the datagram's own fragment: output exactly if it completes the set |
| `RoundTrip.OtherStep` | kernel/net.c:1148-1258 | another datagram's fragment leaves the slot alone |
| `RoundTrip.FragmentsReassemble` | kernel/net.c:1130-1258 | for every payload of 1481 to 4096 bytes and every arrival sequence, in any order, with duplicates and interleaved with other datagrams while the slot is not evicted or timed out, reassembly yields the original packet exactly at the arrival that completes the set and nothing before |
| `RoundTrip.LateFragmentStartsOver` | kernel/net.c:1119-1258 | a fragment more than 300 ticks after its datagram's last yields nothing, and the table then tracks it alone |
| `RoundTrip.GapSplits` | kernel/net.c:1119-1258 | two fragments with a gap of more than 300 ticks are never joined |
| `TcpWire.SegmentRoundTrip` | kernel/net.c:649-723 | every sent segment passes the receive checks and decodes to the same ports, numbers, flags and payload |
| `TcpWire.Sealed` | kernel/net.c:692-716 | the checksum over pseudo-header and segment verifies and changes only its own field |
| `TcpWire.FlagsRoundTrip` | kernel/net.c:809-815 | the flag byte decodes to the flags it was built from |
| `TcpWire.FlagBits` | kernel/net.c:809-815 | the flag bytes of the segments sent are those of section 3.1 of RFC 793 |
| `TcpWire.WindowAndLength` | kernel/net.c:649-723 | every segment offers a window of 4096 and a header of 20 bytes |
| `TcpWire.AcceptedIsIntact` | kernel/net.c:762-822 | an accepted segment's checksum verifies over the pseudo-header and its payload is what follows its header |
| `TcpWire.CorruptIsRefused` | kernel/net.c:762-801 | a sent segment with one word behind the ports changed, 0 for 0xFFFF excepted, is refused |
| `Tcp.Slot.Enqueue` | kernel/net.c:725-739 | the ring queue gains the payload at its end unless it is full |
| `Tcp.Slot.SendTracked` | kernel/net.c:579-594 | sends and records the segment, and advances snd_nxt only if the NIC took it |
| `Tcp.Slot.HandleSegment` | kernel/net.c:859-949 | state, queue, answers and return value after a segment are those of the TCP step function, which the TcpAnswer and TcpSystem rows describe |
| `Tcp.Slot.AcceptClosing` | kernel/net.c:868-890 | the closing branch against its function |
| `Tcp.Slot.AcceptHandshake` | kernel/net.c:892-911 | the handshake branch against its function |
| `Tcp.Slot.AcceptOpen` | kernel/net.c:921-946 | the data and FIN branch against its function, loss injection included (see TcpAnswer.Answered, TcpAnswer.TakenIff, TcpAnswer.AckMoves) |
| `Tcp.Slot.Send` | kernel/net.c:2339-2356 | accepts at most one segment of bytes, only when established |
| `Tcp.Slot.Receive` | kernel/net.c:2358-2378 | hands out the head segment up to the buffer length and drops the rest of it |
| `Tcp.Slot.CloseSlot` | kernel/net.c:2380-2403 | sends a FIN and enters closing, or frees the slot |
| `Tcp.Slot.PollSlot` | kernel/net.c:2405-2422 | retransmits or frees as the retransmission function says |
| `TcpAnswer.OpeningsWait` | kernel/net.c:2249-2285 | a connecting slot and a listener's child wait, keep their SYN or SYN|ACK for repeating, and the child's acknowledges the peer's number |
| `TcpAnswer.ResetFrees` | kernel/net.c:861-866 | a reset frees the slot and is not answered |
| `TcpAnswer.HandshakeIff` | kernel/net.c:892-911 | the handshake is over exactly with the acknowledgement of the SYN, together with the peer's SYN for the end that connected, which answers; anything else changes nothing |
| `TcpAnswer.AckMoves` | kernel/net.c:868-919 | the oldest unanswered number moves to the acknowledged one and never back, the wait ends when it reaches snd_nxt, and a closing slot is freed by exactly that |
| `TcpAnswer.Answered` | kernel/net.c:921-946 | in an open connection every data segment and FIN, new or old, is answered last by a bare acknowledgement of where the stream then stands |
| `TcpAnswer.TakenIff` | kernel/net.c:921-946 | a segment extends the received stream by its payload exactly if it is the next, fits the queue and is not lost, and ends it exactly if it is the FIN there; rcv_nxt moves by exactly that |
| `TcpAnswer.IgnoredChangesNothing` | kernel/net.c:859-949 | a segment reported as not handled changes nothing and is not answered; an open connection handles every one |
| `TcpAnswer.WriteSends` | kernel/net.c:2339-2356 | a write of an open connection sends one segment with the next bytes, at most 1200, and keeps it; a refused write changes nothing |
| `TcpAnswer.ShutSends` | kernel/net.c:2380-2403 | closing an open connection sends and keeps the FIN; any other slot is freed |
| `TcpSystem.SenderStep` | kernel/net.c:557-594 | every step keeps every segment ever sent a SYN, a FIN right after the stream, or a piece of the stream at its own offset |
| `TcpSystem.ReceiverStep` | kernel/net.c:784-949 | every step keeps the received bytes a prefix of the peer's and rcv_nxt at the peer's initial number plus what was taken |
| `TcpSystem.PrefixSafety` | kernel/net.c:784-949 | in every run over a channel that drops, duplicates and reorders, bytes handed out plus bytes queued are a prefix of the bytes the peer accepted, rcv_nxt is ISS + 1 + their number, plus 1 once the FIN is taken, and the FIN is taken only after the whole stream |
| `TcpAnswer.AllAcknowledged` | kernel/net.c:784-949 | in every run, whatever an end has taken of the stream and the FIN, some segment it sent acknowledges up to rcv_nxt |
| `TcpAnswer.TakenIsAnswered` | kernel/net.c:784-949 | in every run whose numbers do not wrap, if an end still waits though the peer has taken all it sent, a segment the peer has sent ends that wait when it arrives, in every state, the handshake included |
| `TcpSystem.ReadIntactIff` | kernel/net.c:2358-2378 | a read keeps the stream intact if and only if the head segment fits the buffer |
| `TcpSystem.ShortReadLoses` | kernel/net.c:2358-2378 | a concrete read into one byte that loses the second |
| `TcpAck.AckedMeansReceived` | kernel/net.c:859-949 | in every run whose numbers do not wrap from the first byte's on, an endpoint no longer waiting for an acknowledgement has had every byte and its FIN received |
| `TcpAck.AckTestExactIff` | kernel/net.c:914-919 | in an open connection, over all acknowledgements the peer can have sent, old ones included, exactly the one for everything ends the wait if and only if the numbers do not wrap |
| `TcpAck.ClosingTestExactIff` | kernel/net.c:868-875 | while closing, over the same acknowledgements, exactly the one for everything frees the slot under the same condition |
| `TcpExamples.OldAckFreesSlot` | kernel/net.c:868-875 | a concrete run from two fresh ends in which a repeated SYN|ACK frees the closing slot and the peer never saw the FIN |
| `TcpAck.WrappedAckEndsWait` | kernel/net.c:914-919 | a concrete wrapped range in which the acknowledgement of one byte ends the wait for three |
| `TcpStall.SecondSendAbandons` | kernel/net.c:2339-2356 | a second send while the first is unanswered abandons every byte before it |
| `TcpStall.CloseAbandons` | kernel/net.c:2380-2403 | so does closing |
| `TcpStall.PolledAgainIff` | kernel/net.c:596-625 | some poll sends a byte again if and only if the kept segment carries it, is waited for and has retries left |
| `TcpStall.NeverAgain` | kernel/net.c:557-625 | no step sends an abandoned byte again, retransmissions included |
| `TcpStall.NeverSentAgain` | kernel/net.c:557-625 | in every continuation of every run no event sends an abandoned byte again |
| `TcpStall.SentAgainIff` | kernel/net.c:557-625 | some admissible continuation sends an accepted byte again if and only if it is kept |
| `TcpStall.StreamStalls` | kernel/net.c:784-949 | in every continuation in which no copy sent before arrives, the peer's stream never passes a byte that is not kept |
| `TcpExamples.FirstByteGivenUp` | kernel/net.c:2339-2356 | a concrete run after which the first of two bytes is given up and the peer has neither |
| `TcpExamples.FirstSegmentTakenTwice` | kernel/net.c:928-931 | after 2^32 - 1 bytes and the FIN the first segment is taken again |
| `TcpExamples.BoundIsSharp` | kernel/net.c:784-949 | from two fresh ends there is a run of 2^32 - 1 bytes after which closing, the FIN and the first segment once more give the peer more bytes than were sent |
| `TcpRetransmit.PollOnce` | kernel/net.c:596-625 | one poll retransmits exactly at the backed-off timeout, and frees the slot after the last retry |
| `TcpRetransmit.RetransmissionBound` | kernel/net.c:2405-2422 | with no answer and a poll every tick the retransmissions happen exactly on schedule, at most 5 (7 in the handshake), and the slot is freed 940 (1580) ticks after the transmission |
| `Scheduler.TaskTable.Pick` | kernel/scheduler.c:202-238 | the rotating scan computes the pick function |
| `Scheduler.BestIsFirstMax` | kernel/scheduler.c:206-222 | the pick is the first READY task of greatest effective priority in cyclic order |
| `Scheduler.PickIsBest` | kernel/scheduler.c:202-238 | when some task is READY, a READY task of greatest effective priority is picked |
| `Scheduler.TaskTable.SelectAndSwitch` | kernel/scheduler.c:240-274 | task table and current task after a switch |
| `Scheduler.TaskTable.Tick` | kernel/scheduler.c:397-475 | the timer ages, wakes and charges as specified and never switches (see Aging.TickLaw, Aging.SliceLaw) |
| `Scheduler.TaskTable.WakeDue` | kernel/scheduler.c:187-200 | exactly the sleepers that are due become READY |
| `Scheduler.Effective` | kernel/scheduler.c:94-124 | effective priority is bounded by base maximum plus both boost caps (see Aging.EffectiveSteps) |
| `Aging.TickLaw` | kernel/scheduler.c:397-424 | at a tick due tasks become READY with boost 2, every task then READY and not current has waited one tick more up to 2^32 - 1, and every other task keeps its wait, its state and its priority |
| `Aging.SliceLaw` | kernel/scheduler.c:426-468 | the running task's slice loses a tick, drops to one when a READY task beats it, and is refilled with 3 to 8 ticks when it ends |
| `Aging.SlicesGrow` | kernel/scheduler.c:150-158 | slices grow with the priority from 3 to 8 ticks |
| `Aging.EffectiveSteps` | kernel/scheduler.c:94-124 | the effective priority counts one for each level up to 7, each 16 ticks of waiting up to 48 and each boost up to 2 |
| `Aging.SwitchLaw` | kernel/scheduler.c:240-274 | after a switch the task picked runs with no wait and no boost and a fresh slice, a yielding one is READY, due ones are awake, and no other task changes |
| `Aging.YieldHandsOver` | kernel/scheduler.c:276-287 | a yielding task loses the processor whenever a READY task is at least as urgent |
| `Aging.SleepsUntil` | kernel/scheduler.c:280-297 | in every run in which it does not get the processor, a sleeper sleeps as long as its time has not come and is READY from then on |
| `Aging.SleepExactIff` | kernel/scheduler.c:280-297 | a task sleeps exactly the ticks it asked for if and only if the tick counter does not wrap meanwhile |
| `Aging.NeverWakes` | kernel/scheduler.c:280-297 | a task that sleeps one tick just before the wrap never wakes |
| `Aging.ExitTerminates` | kernel/scheduler.c:299-345 | a task that exits is terminated and hands over the processor |
| `Aging.ExitIsFinal` | kernel/scheduler.c:202-345 | in no run does a terminated task get the processor again |
| `IpcRings.Channel.Put` | kernel/scheduler.c:492-499 | the ring gains the value at its end unless full |
| `IpcRings.Channel.Take` | kernel/scheduler.c:522-529 | the ring loses its first value unless empty |
| `IpcRings.Send` | kernel/scheduler.c:479-507 | rings and task table after a send are those of the kernel model's step, the wake of the first waiting receiver included |
| `IpcRings.Receive` | kernel/scheduler.c:509-537 | rings and task table after a receive are those of the kernel model's step, the wake of the first waiting sender included |
| `IpcRings.WaitQueue.Join` | kernel/scheduler.c:567-586 | the current task is appended and blocked unless the queue is full |
| `IpcRings.WaitQueue.WakeFirst` | kernel/scheduler.c:588-616 | entries are dropped up to the first blocked one, which becomes READY |
| `IpcSafety.WakeLaw` | kernel/scheduler.c:588-616 | the entries in front of the first blocked task are dropped, that task becomes READY with boost 2, and nothing else changes |
| `IpcSafety.SendLaw` | kernel/scheduler.c:479-507 | a send succeeds exactly with one of 16 places free, appends its value, and touches no other channel |
| `IpcSafety.RecvLaw` | kernel/scheduler.c:509-537 | a receive succeeds exactly on a channel that is not empty and takes its first value |
| `IpcSafety.NonBlockingLaw` | kernel/scheduler.c:479-537 | the same of the calls themselves; a channel number outside 0 to 3 is refused |
| `IpcSafety.BlockingLaw` | kernel/scheduler.c:805-862 | a blocking call, first try or retry, transfers its value at once if it can, and else joins the end of its queue and is blocked |
| `IpcSafety.StepKeeps` | kernel/scheduler.c:479-616 | every send, receive, wait, wake, switch and tick keeps the kernel invariant |
| `IpcSafety.RunKeeps` | kernel/scheduler.c:805-862 | so does every run |
| `IpcSafety.SingleRunning` | kernel/scheduler.c:240-297 | in every run exactly the current task is RUNNING |
| `IpcSafety.QueueDiscipline` | kernel/scheduler.c:567-616 | queue entries are distinct, a task is in a queue if and only if it is BLOCKED on that operation, and no queue is full |
| `IpcSafety.QueuesNeverFull` | kernel/scheduler.c:577-577 | the guard against a full wait queue always holds |
| `IpcSafety.NoLostWakeup` | kernel/scheduler.c:479-537 | while a receiver is blocked, queued messages are at most the woken receivers that have not retried, dually for senders and free slots, and each channel delivers in FIFO order without loss |
| `IpcSafety.MessageHasTaker` | kernel/scheduler.c:849-862 | a message waiting beside a blocked receiver has another active receiver on its way |
| `IpcSafety.BlockedResumesIff` | kernel/scheduler.c:240-274 | a blocked task keeps the processor if and only if no task is READY |
| `IpcSafety.LoneTaskResumes` | kernel/scheduler.c:240-274 | a concrete task that blocks and is running again at once |
| `DispatchBound.SwitchCloser` | kernel/scheduler.c:240-274 | each switch dispatches an aged task or moves the current task cyclically closer to it |
| `DispatchBound.DistanceShrinks` | kernel/scheduler.c:202-274 | over a run, switches plus remaining distance never exceed the initial distance |
| `DispatchBound.BoundedDispatch` | kernel/scheduler.c:202-274 | a task that waited 48 ticks, with no other task of higher base priority or wake boost, is passed over by at most task count - 2 switches |
| `Aging.WaitCounts` | kernel/scheduler.c:397-424 | in every run in which it does not get the processor a READY task stays READY and its wait counts every tick |
| `Aging.BoundedFromReady` | kernel/scheduler.c:202-424 | so from any wait, after 48 ticks at most task count - 2 switches pass it over |
| `PageCache.Cache.FindLine` | kernel/page_cache.c:24-31 | the first valid line that holds the LBA |
| `PageCache.Cache.FlushLine` | kernel/page_cache.c:33-42 | the line is clean and on disk afterwards, and no logical content changes |
| `PageCache.Cache.PickVictim` | kernel/page_cache.c:44-66 | within 33 probes the first invalid or unreferenced line in clock order, or the line at the hand if all were referenced, with the passed reference bits cleared, the victim flushed and counted |
| `PageCache.Cache.ReadSector` | kernel/page_cache.c:82-115 | a successful read returns the logical content; no read, failed or not, changes it; it fails exactly on a miss the backend fails; a hit only sets the reference bit, and a miss leaves the sector clean in the line the clock chose; the counters count it |
| `PageCache.Cache.WriteSector` | kernel/page_cache.c:117-140 | the logical content changes at the LBA only; the sector is then dirty in its line, or on a miss in the line the clock chose; no LBA is in two valid lines, clean lines equal the disk, and the counters balance |
| `PageCache.Cache.FlushAll` | kernel/page_cache.c:142-147 | no line is dirty and the disk equals the logical content |
| `PageCache.Cache.Replay` | kernel/page_cache.c:82-147 | over every sequence of reads, writes and flushes, each successful read returns what a plain disk would and the logical content is the plain disk's |
| `PageCache.FillView` | kernel/page_cache.c:108-111 | filling a line not held elsewhere keeps coherence and changes the view at its LBA only |
| `PageCache.SweptSameView` | kernel/page_cache.c:44-61 | the moving clock hand changes no logical content |
| `DiskBatch.Projection` | kernel/disk.c:117-175 | the effect on one LBA depends only on the requests for that LBA, in their order |
| `DiskBatch.SameEffect` | kernel/disk.c:117-175 | two orders that agree on each LBA give the same disk, buffers and results |
| `DiskBatch.InTurn` | kernel/disk.c:145-172 | in submission order a read gets the data of the last write to its sector before it, else what the disk held, with IO_OK, and NO_DEVICE if neither exists; writes succeed with their buffers unchanged; the disk ends with the last write of each sector |
| `DiskBatch.NullsSkipped` | kernel/disk.c:145-172 | a request without a buffer keeps its result and changes nothing, in any order |
| `DiskBatch.InsertKey` | kernel/disk.c:137-143 | the in-place shifting loop sinks the key to its place |
| `DiskBatch.SortOrder` | kernel/disk.c:136-144 | the order is a permutation of the array, sorted by LBA, with the entries for one LBA in their old order; an array already sorted is untouched |
| `DiskBatch.SafeIff` | kernel/disk.c:128-134 | every index the batch uses is one of its own requests, for every earlier stack content, if and only if no buffer is null |
| `DiskBatch.NullBufferStrays` | kernel/disk.c:128-147 | a concrete batch of one null buffer that uses request 7 |
| `DiskBatch.OldIndexUndoesWrite` | kernel/disk.c:128-160 | a concrete batch whose order array, with an old index in range left in it, executes the first write again after the second; by ProcessBatch that is what becomes of the disk |
| `DiskBatch.Scheduler.ProcessBatch` | kernel/disk.c:117-175 | an index outside the batch is used exactly when one is left in the order array, and otherwise disk, buffers and results are those of executing that array as it was before sorting (see NullsSkipped); with all buffers given that is submission order, in which InTurn says what each request gets, and reordered_requests grows exactly when LBAs were out of order; nothing past 64 requests is touched |
| `DiskBatch.MovedCounts` | kernel/disk.c:145-172 | the requests counted as reordered are those not at the place they were submitted to |
| `Ext2Alloc.Store.AllocBlock` | kernel/ext2fs.c:395-422 | takes the lowest free block, setting exactly its bit; fails only when every block is in use |
| `Ext2Alloc.Store.FreeBlock` | kernel/ext2fs.c:424-438 | clears exactly the bit of a covered block, and for any other number exactly the bit its unsigned arithmetic leads to, if the group exists |
| `Ext2Alloc.SetUseExact` | kernel/ext2fs.c:334-345 | group and bit arithmetic reach exactly one block's bit |
| `Ext2Alloc.SetUseUndone` | kernel/ext2fs.c:395-438 | freeing what was allocated restores the volume bit for bit |
| `Ext2Inode.RecordRoundTrip` | kernel/ext2fs.c:261-332 | an inode record decodes to the inode it was encoded from |
| `Ext2Inode.RecordFields` | kernel/ext2fs.c:75-94 | size, block count and pointers are at bytes 4, 28 and 40 of the record |
| `Ext2Inode.RecordsInOrder` | kernel/ext2fs.c:252-301 | the records of a group follow each other at the inode size from the start of its table |
| `Ext2Inode.MapPlaces` | kernel/ext2fs.c:444-498 | places 0 to 11 are the inode's pointers, and 12 to 267 the entries of the block its 13th pointer names |
| `Ext2Inode.StoreInodeExact` | kernel/ext2fs.c:303-332 | writing an inode changes that inode and no other, and one block |
| `Ext2Inode.FileUntouched` | kernel/ext2fs.c:444-498 | a file none of whose blocks changed reads the same |
| `Ext2Map.AllocKeeps` | kernel/ext2fs.c:395-422 | taking a free block disturbs no file and the block belongs to nobody |
| `Ext2Map.LinkDirect` | kernel/ext2fs.c:449-459 | a fresh block as direct block keeps all maps disjoint |
| `Ext2Map.LinkIndirect` | kernel/ext2fs.c:466-481 | a fresh zeroed indirect block changes no mapping |
| `Ext2Map.LinkEntry` | kernel/ext2fs.c:483-497 | an indirect entry maps exactly its own file block |
| `Ext2File.Fs.FindBlock` | kernel/ext2fs.c:444-498 | lookup without creation is the block map |
| `Ext2File.Fs.MapBlock` | kernel/ext2fs.c:444-498 | yields the block mapped at the place, or else the lowest free one behind the one that becomes a missing indirect block, so failure is decided before the call; nothing but that place and the indirect block is mapped, a fresh data block keeps its old bytes, every other mapping and byte stays, and exactly the new blocks' bits are set |
| `Ext2Map.YieldsIff` | kernel/ext2fs.c:444-498 | a place can be had if and only if it is mapped or one block is free, two if the indirect block is missing |
| `Ext2Map.EnoughIff` | kernel/ext2fs.c:444-498 | over a run that fills only needed places, one block each, all of them end up mapped if and only if there were at least as many free blocks as unmapped places |
| `Ext2File.Fs.WriteLoop` | kernel/ext2fs.c:1008-1032 | the chunked loop across direct and indirect blocks leaves the file holding the spliced contents |
| `Ext2File.Fs.Write` | kernel/ext2fs.c:991-1043 | at pos <= size, succeeds if and only if the bytes fit the block map and there are as many free blocks as unmapped places under them, the indirect block included; then the data is spliced in, size and block count are set, every other file, inode and unrelated block is kept, nothing but places under the data and the indirect block is mapped, exactly those blocks are marked, and the handle advances; a write that runs out of blocks leaves the inode and the other files as they were and the file overwritten up to where it stopped; every error code has its exact condition |
| `Ext2File.Fs.Read` | kernel/ext2fs.c:942-989 | returns exactly the bytes from the position up to the requested size, the end of the file or its first hole, and changes only the position |
| `Ext2File.Fs.WriteThenRead` | kernel/ext2fs.c:942-1043 | what a write put in is what a read from the same position returns |
| `Ext2File.NoHolesReadsAll` | kernel/ext2fs.c:942-989 | in a file without holes a read yields the slice of the contents |
| `Ext2Truncate.ClearBlocks` | kernel/ext2fs.c:500-526 | frees exactly the file's data blocks and indirect block |
| `Ext2Truncate.TruncateToZero` | kernel/ext2fs.c:838-864 | clears exactly the bits of the file's blocks although some are freed twice, holes or not; size, block count and all pointers of the inode are then 0 and its other fields as they were; every other inode and block is left alone |
| `Ext2Dir.AddBinds` | kernel/ext2fs.c:710-733 | splitting a record binds the new name, keeps every other binding and the exact tiling, unless the NUL lands on the next record |
| `Ext2Dir.HeaderBytes` | kernel/ext2fs.c:96-102 | a record's header has the inode number, the length, the name's length and the type at bytes 0, 4, 6 and 7 |
| `Ext2Dir.AddKeepsUnique` | kernel/ext2fs.c:710-733 | and keeps names unique |
| `Ext2Dir.AddDamages` | kernel/ext2fs.c:724-724 | when the NUL lands on a non-zero byte, some other name is lost or leads elsewhere |
| `Ext2Dir.AddBindsIff` | kernel/ext2fs.c:710-733 | the block is the intended one if and only if the NUL falls on no non-zero byte |
| `Ext2Dir.OddLengthsAreSafe` | kernel/ext2fs.c:724-724 | a name whose length is not a multiple of 4 never causes damage |
| `Ext2Directory.MergeRemoves` | kernel/ext2fs.c:791-792 | absorbing a record into the one in front removes its name and nothing else, and keeps tiling and uniqueness |
| `Ext2Directory.UnlinkFirst` | kernel/ext2fs.c:793-795 | zeroing the first record's inode removes its name and nothing else |
| `Ext2Directory.FindRecord` | kernel/ext2fs.c:575-607 | the chain scan finds the name exactly when the block binds it, with the record in front of it |
| `Ext2Grown.FindRoom` | kernel/ext2fs.c:700-737 | the scan on any bytes takes the first record its test accepts, 16-bit wrap included |
| `Ext2Grown.RoomInTiled` | kernel/ext2fs.c:700-737 | in a well-formed block that is the first live record with enough slack |
| `Ext2DirFile.Lookup` | kernel/ext2fs.c:555-610 | lookup on an inode of the volume is the finite map over its blocks; anything but a directory has no names |
| `Ext2DirFile.IsDirBit` | kernel/ext2fs.c:562-562 | a directory is an inode whose mode has bit 0x4000 |
| `Ext2DirFile.Add` | kernel/ext2fs.c:677-760 | on an inode of the volume, succeeds if and only if some record has room or, before the call, the place behind the last block is mapped or can be; the first such record is split, or the block behind the last is rewritten from what it held before the call, and the result is a well-formed directory with the name bound and nothing else changed if and only if the name does not fill its room before a record and those old contents do no harm; into a record, the inode and the bitmaps stay as they are; growing, the stored inode is one block longer, maps that place and at most the indirect block besides, and exactly these are marked; it fails only when the block map or the volume is full; every other file stays as it was |
| `Ext2DirFile.GrownByOne` | kernel/ext2fs.c:739-756 | writing the block behind the last and storing the size makes the directory one block longer and touches no other file |
| `Ext2DirFile.NothingMapped` | kernel/ext2fs.c:692-695 | when no block can be had the inode on the volume still has the same directory |
| `Ext2DirFile.BlockWritten` | kernel/ext2fs.c:726-733 | writing one block of a directory replaces that block of it, and the inode, the bitmaps and every other file stay as they were |
| `Ext2DirFile.Remove` | kernel/ext2fs.c:762-809 | on an inode of the volume, succeeds exactly when the name is bound; the blocks then hold the map without it; tiling and uniqueness are kept, and neither the inode nor the bitmaps nor anything outside the directory's blocks changes |
| `Ext2Directory.UnalignedNeverFills` | kernel/ext2fs.c:724-724 | names of length not a multiple of 4 always meet the condition of Add |
| `Ext2Directory.LastBlockIff` | kernel/ext2fs.c:739-757 | one more block makes the intended directory if and only if it binds the new name and nothing else |
| `Ext2Grown.StaleBindsIff` | kernel/ext2fs.c:711-734 | when the scan takes a record of the old contents, the block binds just the new name if and only if that record is an echo of it in the last place |
| `Ext2Grown.GrownBindsIff` | kernel/ext2fs.c:691-757 | for every old contents, the grown block binds just the new name if and only if the scan takes no record or an echo |
| `Ext2Examples.FillingNameDamages` | kernel/ext2fs.c:724-724 | a concrete directory that loses a name when another is added |
| `Ext2Examples.OldContentsHarm` | kernel/ext2fs.c:691-734 | a concrete grown block whose old contents appear in the directory |
| `Ext2Examples.EchoIsHarmless` | kernel/ext2fs.c:711-734 | a concrete echo |
| `Pmm.Allocator.constructor` | kernel/pmm.c:134-145 | exactly the pages under the kernel's end are used |
| `Pmm.Allocator.AllocPage` | kernel/pmm.c:117-127 | the lowest free page, its bit and no other set; 0 exactly when all are used |
| `Pmm.Allocator.FreePage` | kernel/pmm.c:99-109 | clears exactly one bit, and none below 1 MB |
| `Pmm.Allocator.FreePages` | kernel/pmm.c:212-220 | the count is the number of pages not used |
| `Pmm.SameUsed` | kernel/pmm.c:93-109 | the bitmap is determined by the set of used pages |
| `Paging.LaysIsLayout` | kernel/paging.c:253-278 | what a walk of the directory finds is exactly the layout memory holds |
| `Paging.OwnedCount` | kernel/paging.c:280-352 | a layout with no shared frame owns exactly one frame for each directory, table and page |
| `AddressSpace.LayoutResolves` | kernel/paging.c:253-278 | resolving an address gives the page of the layout |
| `AddressSpace.ResolvesIff` | kernel/paging.c:253-278 | an address resolves exactly if its table is present and has it present, and to the frame there |
| `AddressSpace.Mmu.CreateDirectory` | kernel/paging.c:97-114 | a new directory in the lowest free frame; every slot is present exactly where the kernel's is, with its frame and its other bits but without the user bit; no other frame is taken; no memory exactly when no frame is free, a fault exactly when none is free below 8 MB but one above |
| `AddressSpace.KernelResolves` | kernel/paging.c:97-114 | where a directory has the kernel's mappings and the kernel's table is unchanged, every address resolves as for the kernel, and not for user mode |
| `AddressSpace.Mmu.MapUserPage` | kernel/paging.c:116-142 | the address resolves to the page, its table entry gives user access, every other address of the space resolves as before, two frames change at most; the lowest free frame is taken when the slot had no table, and otherwise none; no memory and fault have their exact conditions |
| `AddressSpace.Mmu.CopyPage` | kernel/paging.c:336-346 | the copy through the two windows gives the destination the source's contents and leaves the windows unmapped |
| `AddressSpace.PageStep` | kernel/paging.c:318-348 | copying one page keeps the clone in progress well-formed, disjoint and a copy |
| `AddressSpace.CloneTableStep` | kernel/paging.c:305-316 | so does hanging in a new table |
| `AddressSpace.Mmu.Clone` | kernel/paging.c:280-352 | faults if and only if the directory or a table gets a frame above 8 MB, and otherwise fails if and only if fewer frames are free than the source needs, both decided by counts of free frames; a successful clone maps exactly the source's user pages, in frames that were free and are pairwise distinct, with equal contents, taking no other frame; its pages are writable from user mode and its other slots map what the kernel's do; on failure the bitmap is exactly as before; frames in use before are unchanged in every case |
| `AddressSpace.FaultsAtDirectory` | kernel/paging.c:289-293 | with every mapped frame in use and others free, every clone faults |
| `AddressSpace.FaultsAtTable` | kernel/paging.c:306-316 | with one mapped frame left and one above, a clone faults at its first table |
| `AddressSpace.OneTableFaults` | kernel/paging.c:306-316 | a concrete state and space for that |
| `AddressSpace.LowTaken` | kernel/paging.c:289-310 | when no mapped frame is left, the clone has taken as many as were free |
| `AddressSpace.LowLeft` | kernel/paging.c:289-310 | a mapped frame handed out means more were free than the clone had taken |
| `AddressSpace.SpaceKept` | kernel/paging.c:280-352 | the source, and every other space whose frames were in use, reads the same after a clone |
| `AddressSpace.Mmu.Destroy` | kernel/paging.c:354-380 | gives back exactly the space's frames above 1 MB, shared pages included, and does nothing for the null and the kernel's directory |
| `AddressSpace.Mmu.CloneThenDestroy` | kernel/paging.c:280-380 | destroying a clone restores the page bitmap exactly |
| `Slab.Allocation.PickCache` | kernel/pmm.c:55-62 | the smallest class whose objects hold the size |
| `Slab.ClassFor` | kernel/pmm.c:55-62 | its objects hold the size and those of no smaller class do |
| `Slab.LiveFits` | kernel/pmm.c:270-287 | every live object lies wholly in one used page |
| `Slab.Allocation.Grow` | kernel/pmm.c:64-84 | adds the objects of the lowest free page in front of one class's free list, exactly when that page is below 8 MB; no memory and fault otherwise |
| `Slab.Carve` | kernel/pmm.c:78-82 | the loop threads every object of the page onto the free list, 4096 / size of them, the last of the page first |
| `Slab.Allocation.Alloc` | kernel/pmm.c:270-287 | the first object of the smallest class that holds the size, no page being taken, or the first of the lowest free page, threaded onto the list, when the list is empty; the lowest free page for sizes over 256; its bytes lie in a used page; the outcome and the new state are determined by the free list and the free pages; the class's counters move by one allocation |
| `Slab.Allocation.Free` | kernel/pmm.c:289-310 | the object returns to its list and its class counts one free, or the page returns to the bitmap, and nothing else changes |
| `Slab.Allocation.UserWrite` | kernel/pmm.c:270-287 | whatever a program writes into what it holds, no free list is affected |
| `Slab.Allocation.Stats` | kernel/pmm.c:312-334 | the walk counts the free list, and in_use plus free objects is pages times objects per page |
| `Slab.ObjectsDisjoint` | kernel/pmm.c:270-334 | live and free objects of all classes lie at multiples of their size and are pairwise disjoint byte ranges inside used pages |
| `Slab.ChainUnique` | kernel/pmm.c:322-325 | following a free list visits one finite list of nodes and ends |
| `Bitmap.SameBits` | kernel/pmm.c:93-115 | bitmaps of one length with the same bits are equal |
| `Bitmap.BitIsPower` | kernel/ext2fs.c:334-345 | bit i is the bit of value 2^(i mod 8) of byte i / 8 |
| `Bitmap.OtherBits` | kernel/ext2fs.c:334-345 | setting or clearing a bit keeps every other bit |

## Left out

- Hardware: RTL8139, AHCI, ATA and PCI registers, TLB flushes, interrupt locking and the assembly context switch. A sector is an entry of a map, a send is an entry of a log.
- ARP, Ethernet padding rules, UDP, routing tables, and the random generator of fault injection (loss is a parameter of each segment).
- Longest-prefix routing: not modelled.
- Finding the connection for a segment, listeners and the accept queue: the model follows one connection of one incarnation.
- Timed waits, task_kill, child waits and events: stale queue entries there need other invariants.
- ext2: truncation to a non-zero size, holes from seeking past the end, link counts, path resolution, inode allocation, rename, symlinks and mkdir. Group descriptors and the superblock are constants read at mount; block I/O succeeds.
- Page permissions other than present and user, and `is_user_range_accessible`.
- What happens after a page fault in the kernel: a fault ends the call, and nothing is promised about what it was doing.
- Null pointer arguments, except where a return code depends on them.
- Statistics counters of the page cache, the disk queue and the slab are unbounded numbers, not 32-bit ones.
- TcpSystem.PrefixSafety: stream and FIN have together at most 2^32 - 1 numbers, by BoundIsSharp; reads use buffers of at least 1200 bytes, by ReadIntactIff.
- TcpAck.AckedMeansReceived: for runs whose sequence numbers do not wrap from the first byte's on, because of AckTestExactIff and OldAckFreesSlot.
- Ipv4.SendRaw: payloads up to 65515 bytes, the most a 16-bit total length can describe.
- Ipv4.BuiltIsAccepted: lengths are unbounded numbers; the 16-bit sum of Ethernet header and total length, which wraps from 65522 on, is not modelled.
- RoundTrip.FragmentsReassemble: the slot must not be evicted or time out before the last fragment; the capacity of a slot is 4096 bytes.
- DispatchBound.BoundedDispatch: about runs in which no other task gets a wake boost or a higher base priority, as the aging cap requires.
- PageCache.Cache.ReadSector: backend writes during eviction succeed; a failing backend read is modelled, with arbitrary bytes left in the line.
- DiskBatch.Scheduler.ProcessBatch: buffers that do not overlap and a backend whose writes succeed.
- Ext2File.Fs.Write: positions up to the size; blocks taken by a write that then runs out of space are not given back by the code and stay marked.
- Ext2Truncate.TruncateToZero: the file's blocks must be its own and covered by the bitmaps.
- Ext2DirFile.Add: the name is not yet bound, as its callers check; directories of whole blocks without holes. The stored file type is not part of the map.
- AddressSpace.Mmu.Clone: the kernel's table for the copy windows must be present, because the code does not check its allocation; the source's frames must be in use and in the 32 MB of memory, its directory and tables, like the kernel's own, in the mapped 8 MB.
- AddressSpace.Mmu.Destroy: for a space whose directory and tables are different frames in the mapped 8 MB.
- Pmm.Allocator.FreePage: for pages of the 32 MB the bitmap covers.
- Slab.Allocation.UserWrite: words are kept by the address they start at; words that overlap are not modelled.
- Slab.Allocation.Free: for objects and pages that are held under the size given, as the interface demands; a double free is not detected by the code.
