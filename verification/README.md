# Verified model of sdplane

sdplane is a DPDK software data plane with a command shell. This project models the four parts of
it that carry the most state and proves what they promise.

**Queue ownership and rib publication** (`QueueTypes`, `RibCheck`, `QueueConfig`, `RibManager`,
`QueueMove`, `QueueRun`, `RibProtocol`, `RibProgress`, `RibExample`, `VSwitch`). A rib says which lcore polls which (port, queue). One
manager copies the current rib, applies a message, checks the queue table, publishes an empty
"zero" rib, waits until every worker has passed a quiescent state, frees the old rib and publishes
the new one. `RibManager` holds the sequential code as classes proved against a fold of messages.
`RibProtocol` is the concurrent part as a step relation: one writer, any number of workers, any
interleaving. A worker's step "uses a (port, queue)" stands for the device queue and both of its
single-producer, single-consumer rings. `RibProgress` shows that the manager cannot get stuck, and
`RibExample` runs a concrete failure. `QueueConfig` is the operator's table, `QueueMove` what
operator and manager achieve together, and `VSwitch` the tap handler's port table that follows the
rib.

**PCIe requests and the pseudo memory** (`Tlp`, `DmaSender`, `PsMem`, `PsWindow`, `PsDevice`, `PsReads`, `DmaRun`). Byte enables,
header encoding and decoding, the padding of write data, and the loop that answers a read with
completions of at most 256 bytes, against sections 2.2.5, 2.2.9 and 2.3.1.1 of the PCI Express Base
Specification 3.0. `PsWindow` is the window of memory on the 64-bit address space, whose guard wraps.
What lies beyond the buffer is a parameter (`outside`). `DmaRun` runs sender and device together and compares the device's memory with a
plain byte map.

**The line editor** (`Terminal`, `Words`, `LineFormat`, `LineEditor`, `Shell`). `Terminal` says
what written characters leave on a row of cells, `LineEditor` what each key makes of the line and
what it writes, `Shell` is the growable terminated buffer proved to do exactly that. The main result
is that the screen shows the prompt, the line and the cursor after any keys.

**The command tree and the tap handler's forwarding table** (`CommandPattern`, `CommandTrie`,
`CommandMatch`, `Fdb`). Patterns with alternatives and optional words, their installation as a
cross product into a shared tree whose siblings may be in any order, and the words that run a
command. `Fdb` is the table of source addresses.

`Sequences` and `Option` hold what the others share.

## What does not hold, and exactly when it does

- The guard of memory reads and writes adds address and length in 64 bits. Of accesses by that length it
  admits one that leaves the window exactly when the sum wraps, the window's own end does not, and the
  wrapped sum lies below that end (`PsWindow.GuardIsExact`); with a window that does not wrap, an
  admitted access is inside if and only if it does not wrap (`GuardIsRightIffNoWrap`). With the default
  window of 8 KiB at address 0, a read of the last eight bytes of the address space sends eight bytes
  from before the buffer (`WrappingReadLeavesTheWindow`), a write across its end overwrites the start of
  the window (`WrappingWriteHitsTheStart`). Of the sender's writes exactly those that end with the
  address space stray (`SentWriteStraysIff`); a read it can encode may (`WrappingReadIsGranted`).
- The guard of reads takes the announced double words from the first requested byte, not from the start
  of its double word, and so refuses some reads of bytes inside the window without any wrap. In a window
  of whole double words a read of bytes inside is answered exactly when it starts on a double word or
  its last double word is not the window's last (`InsideIsAnsweredIff` for any legal request,
  `InsideIsGrantedIffAligned` for the sender's); the last byte of the default window cannot be read
  (`LastByteIsRefused`).
- A Length field of 0 means 1024 double words, but the completer takes it for none: a legal read gets
  the bytes it names exactly when its Length field is not 0 and the guard admits it
  (`LegalReadDeliversIff`); a read of 4096 bytes of the default window gets no data
  (`FullReadDeliversNothing`).
- The accessors' address and data length span the enabled bytes exactly when the enables are contiguous
  and not empty (`AccessorsRangeIff`); requests of one or two double words may legally have others.
- At the top of the 64-bit address space the sender's encoding goes wrong: up to its end, the enabled
  bytes are those asked for exactly when neither `addr + 4` nor `addr + count` wraps, or the request
  fills the very last double word to its end (`EncodingEnablesExactlyIff`). The last eight bytes are
  announced as two double words of which the second has no byte enabled, and for one byte at the last
  double word the shift is out of range (`EncodingFailsAtTheTop`).
- A window that does not start on a double word lets the first completion carry bytes from before it
  as padding (`FirstDwStaysIff`); the requester drops them.
- With a reserved address bit set the split loop can run forever: it ends exactly when the bytes asked
  for fit the announced double words (`LoopEndsIff`), which holds whenever those bits are zero and fails
  for a read of four bytes with address field 2 (`EndlessRead`).
- An lcore's last queue cannot be moved to another lcore: the manager keeps the lists of lcores
  that the message leaves empty, so the queue is listed twice and the message is rejected
  (`MoveIsAcceptedIffSourceKeepsAQueue`). `CommandIsAcceptedIff` gives the condition for every command:
  a new queue must be its port's next, and one dropped because the target is full its port's highest.
- After a command the operator's table is in step with the rib exactly when the message was accepted, the
  target is an lcore the rib knows, and no lcore's only queue was dropped (`StaysInStepIff`); a rejected
  command has changed the table already. From then on acceptance depends on table and rib both
  (`MessageIsAcceptedIff`). After a rejected move of an lcore's only queue every command is rejected,
  whatever it does, until one gives that lcore a queue or takes the moved one out of the message's sight
  (`RejectedMoveBlocks`, `StaysBlockedIff`, `StaysRejected`); moving it back repairs the table
  (`MovingBackRepairs`).
- If the zero rib cannot be allocated, the code publishes the new table beside the old one. Some
  interleaving then puts two workers on one queue as soon as a queue changes lcores
  (`UnbufferedMoveIsUnsafe`, from the start of the system in `RibExample.UnbufferedRunExists`); without
  such a change the run is safe.
- The write sender and the receiver disagree on where the data starts exactly for the first-DW
  enables 1, 2 and 3 (`PaddingAgreesIff`); payloads are recovered exactly from `addr % 4 + count >= 3`
  on, and the announced double words are filled exactly from `addr % 4 + count >= 4` on.
- A request for no bytes reads back as empty only at an aligned address (`EmptyRequestDecodesIffAligned`).
- The length setter does not mask, so a length reads back exactly below 1024 (`LengthRoundTripIff`).
- Completions are cut every 256 bytes from the start of the request, which meets the Read Completion
  Boundary rule exactly when the start is aligned to 128 bytes or there is only one completion
  (`SplitsAtBoundariesIff`).
- The completion header keeps bit 12 of the request's status position: it shows bit 4 of the tag
  (`CplIdentifies`).
- The argument of a `<LINE>` or file word starts at the first occurrence of the typed word's text in the
  line, which is not the word itself if that text occurs before it (`LineWordRuns`, `StrstrIs`).
- A request with Length 0 whose enables leave out bytes gets a negative byte count, which sets all status
  bits of its completion (`NegativeCountSpoilsStatus`).
- A pattern two of whose expansions are equal aborts the installation (`CommandSet.Install`).

Three helpers promise less than their names and rely on their callers, which see to it:

- The operator's removal scan skips the entry behind a removed one, so it removes all occurrences
  exactly when no two are adjacent (`RemoveScanIsRemoval`); the table is always duplicate-free
  (`ThreadQconf.Run`).
- `shell_delete_string` keeps the screen right exactly when the deletion starts at or before the
  cursor, which it does not check (`DeleteShowsIff`); every key handler sees to it (`ActShows`).
- The virtual switch's port ids are indices after an update exactly when the tap ports came first
  (`NumberedAfterIff`); they are added before any update and stay first (`UpdateKeepsTapsFirst`).

## Model

| member | source | states |
|---|---|---|
| RibCheck.Check | sdplane/rib_manager.c:163-208 | the table is accepted if and only if each port's queue ids over all lcores are 0..n-1, each once |
| RibCheck.MismatchIsNotDense | sdplane/rib_manager.c:192-207 | a mismatch of the counting loop over the sorted entries means a duplicate or a gap of the whole table |
| RibCheck.Count | sdplane/rib_manager.c:189-208 | the counting loop over sorted entries succeeds if and only if they are dense |
| RibCheck.SortIsSortedPermutation | sdplane/rib_manager.c:108-122 | sorting with the comparator orders by port, then queue, and loses nothing |
| QueueTypes.DenseIsExclusive | sdplane/rib_manager.c:192-208 | a dense table gives no queue to two lcores |
| QueueConfig.RemoveScanIsRemoval | sdplane/queue_config.c:112-132 | the removal scan removes every occurrence if and only if no two are adjacent |
| QueueConfig.RemoveScanLeavesHalf | sdplane/queue_config.c:112-132 | of m occurrences in a row the scan leaves m / 2, rounded down, and all other entries in order |
| QueueConfig.SetQueueMovesOneQueue | sdplane/queue_config.c:107-157 | from a duplicate-free table: stays duplicate-free, the named queue ends on the target unless that was full, all others keep lcore and order |
| QueueConfig.TargetListIs | sdplane/queue_config.c:107-157 | the named queue is put behind the target's others, unless it is there already or the sixteen places are taken; a list without it is not touched |
| QueueConfig.ThreadQconf.RemoveFrom | sdplane/queue_config.c:112-132 | the in-place scan with its shifting leaves exactly what the scan's specification leaves |
| QueueConfig.ThreadQconf.SetThreadLcorePortQueue | sdplane/queue_config.c:107-157 | the command's whole effect on all lists |
| QueueConfig.ThreadQconf.Run | sdplane/queue_config.c:89-157 | the table stays duplicate-free over any run of commands |
| RibManager.ApplyKeepsSound | sdplane/rib_manager.c:369-474 | an accepted message leads from a sound rib to a sound rib |
| RibManager.FoldIsSound | sdplane/rib_manager.c:369-527 | the published rib is sound after every message run |
| RibManager.VersionCountsAccepted | sdplane/rib_manager.c:48-65 | over any run the version is the number of accepted messages modulo 2^32 |
| RibManager.ApplyLists | sdplane/rib_manager.c:420-453 | an accepted QCONF replaces the lists of lcores with a nonzero count and keeps all others; other messages keep all lists |
| RibManager.LastAssignmentStands | sdplane/rib_manager.c:420-461 | after any run an lcore's list is that of the last accepted message naming it |
| RibManager.DescriptorsAreSet | sdplane/rib_manager.c:508-516 | a descriptor message gives its port exactly its counts and changes nothing else |
| RibManager.StatusIsShown | sdplane/rib_manager.c:346-367 | a status message shows each port its own answer, keeps the counts, other ports and lists, and sets both sizes |
| RibManager.OthersAreKept | sdplane/rib_manager.c:390-474 | a QCONF keeps all ports, and link messages everything but the version |
| RibManager.LastDescriptorsStand | sdplane/rib_manager.c:508-516 | over any run a port's counts are those of the last message naming it |
| RibManager.LastStatusStands | sdplane/rib_manager.c:346-367 | over any run a port shows the last answer given for it |
| RibManager.PublicationsNeverHandOver | sdplane/rib_manager.c:463-472 | in no two ribs published one after the other does a queue go from one lcore to another, and the last is the new one |
| RibManager.MovingLastQueueIsRejected | sdplane/rib_manager.c:433-461 | moving an lcore's only queue away is rejected |
| RibManager.SoundIsExclusive | sdplane/rib_manager.c:456-461 | a published rib gives no queue to two lcores |
| RibManager.RibInfo.MergeQueues | sdplane/rib_manager.c:428-453 | the slot-by-slot copy loop equals the merge of the two tables and touches nothing else |
| RibManager.RibInfo.UpdatePortStatus | sdplane/rib_manager.c:346-367 | the ports asked get the device's answers, all else is kept |
| RibManager.Manager.Replace | sdplane/rib_manager.c:318-344 | publishes the new rib and reclaims exactly the one it replaced |
| RibManager.Manager.ProcessMessage | sdplane/rib_manager.c:369-474 | an accepted message publishes its ribs in order and reclaims each predecessor; a rejected one changes nothing |
| RibManager.Manager.Run | sdplane/rib_manager.c:369-527 | the published rib is the fold of the messages |
| QueueMove.MoveKeepsDense | sdplane/queue_config.c:107-157 | taking a queue from one list to another keeps the table dense |
| QueueMove.AddDenseIff | sdplane/rib_manager.c:163-208 | one more queue keeps a table dense if and only if it is its port's next |
| QueueMove.RemoveDenseIff | sdplane/rib_manager.c:163-208 | one queue fewer keeps it dense if and only if it was its port's highest |
| QueueMove.CommandIsAcceptedIff | sdplane/queue_config.c:107-182 | whatever the command does (move, add, repeat, drop), its message is accepted if and only if the lists before it meet the stated condition |
| QueueMove.StaysInStepIff | sdplane/queue_config.c:107-182 | after any command table and rib agree if and only if it was accepted, no lcore's only queue was dropped and the target is known to the rib |
| QueueMove.InStepIsAccepted | sdplane/rib_manager.c:428-461 | a table that shows what the rib hands out is accepted |
| QueueRun.DenseIffOnceWithoutGap | sdplane/rib_manager.c:163-208 | dense means nothing twice and no gap below a port's queue |
| QueueRun.MessageIsAcceptedIff | sdplane/rib_manager.c:428-461 | any duplicate-free table, in step or not, is accepted if and only if it gives away no queue kept by an lcore it leaves empty and leaves no gap |
| QueueRun.StaysBlockedIff | sdplane/queue_config.c:107-157 | which commands end the state after a rejected move, and that all others keep it |
| QueueRun.StaysRejected | sdplane/rib_manager.c:433-461 | over any run of such other commands every message is rejected and the rib stays |
| QueueRun.RejectedMoveBlocks | sdplane/queue_config.c:107-182 | a rejected move of an lcore's only queue leads to that state |
| QueueRun.MovingBackRepairs | sdplane/queue_config.c:107-182 | moving the queue back restores the table, in step and accepted |
| QueueMove.MoveIsAcceptedIffSourceKeepsAQueue | sdplane/rib_manager.c:428-461 | a move command leads to an accepted message if and only if its source lcore keeps a queue |
| RibProtocol.StepKeepsInv | sdplane/rib_manager.c:318-344 | every step of writer and workers keeps the protocol's invariant |
| RibProtocol.InvIsSafe | sdplane/l2_repeater.c:146-214 | the invariant excludes two workers on one queue, use after reclamation and double reclamation |
| RibProtocol.EveryRunIsSafe | sdplane/rib_manager.c:318-344 | every interleaving with any messages and any workers is safe, no rib is lost, listed queues have their rings, an idle writer's rib is the fold of the messages |
| RibProtocol.ReclaimNeedsQuiescence | sdplane/l2_repeater.c:251-273 | a rib a worker holds is reclaimed only after that worker reported a quiescent state |
| RibProtocol.ReadersCompatible | sdplane/nettlp.c:719-765 | snapshots never allow two workers the same queue, and the queue's rings exist |
| RibProtocol.NewRibOk | sdplane/rib_manager.c:277-313 | an accepted table is sound and all its queues have their rings before it is published |
| RibProtocol.HoldsUntilQuiescent | sdplane/nettlp.c:789-808 | only its own quiescent state ends a worker's hold on a snapshot |
| RibProgress.GracePeriodCanEnd | sdplane/l2_repeater.c:251-273 | from every state with a waiting writer some steps of the workers alone end the grace period |
| RibProgress.NoRunGetsStuck | sdplane/rib_manager.c:318-344 | after any run the manager can finish what it is doing without another message |
| RibExample.UnbufferedRunExists | sdplane/rib_manager.c:463-472 | from the start of the system a second message without its zero rib leads to two users of one queue |
| RibCheck.SixteenLcoresFit | sdplane/rib_manager.c:158-184 | with at most 16 lcores no table has more entries than the fixed array |
| RibProtocol.UnbufferedMoveIsUnsafe | sdplane/rib_manager.c:463-472 | without the zero rib a moved queue gives an interleaving with two users |
| VSwitch.VSwitch.RemoveDpdkPorts | sdplane/tap_handler.c:82-102 | the in-place backward compaction keeps exactly the other ports, in order |
| VSwitch.VSwitch.Update | sdplane/tap_handler.c:82-160 | the ports are those kept, then the rib's queues with a ring in order, cut at the limit |
| VSwitch.KeptAppend | sdplane/tap_handler.c:84-102 | keeping works port by port, in order |
| VSwitch.RingedIff | sdplane/tap_handler.c:117-130 | a queue gets a port if and only if some lcore lists it and it has an up ring |
| VSwitch.PortShowsItsRings | sdplane/tap_handler.c:132-157 | a DPDK port shows an lcore that polls its queue and that queue's own two rings |
| VSwitch.NumberedAfterIff | sdplane/tap_handler.c:84-137 | ids are indices after an update if and only if the tap ports came first |
| VSwitch.UpdateKeepsTapsFirst | sdplane/tap_handler.c:82-160 | tap ports stay first, so ids stay indices over any updates |
| VSwitch.NoQueueTwice | sdplane/tap_handler.c:117-160 | from an accepted table no two ports lead to the same queue's rings |
| Fdb.Table.Register | sdplane/tap_handler.c:186-211 | the loop changes only the first slot that is free or holds the source |
| Fdb.Table.RegisterAll | sdplane/tap_handler.c:175-212 | registering frame by frame leaves the table the reference describes |
| Fdb.RunHolds | sdplane/tap_handler.c:175-212 | after any frames the table holds the first 16 distinct nonzero sources, each on its latest port, then free slots |
| Fdb.SourcesHold | sdplane/tap_handler.c:186-211 | the reference list is exactly the distinct nonzero sources seen |
| Fdb.SourcesInOrder | sdplane/tap_handler.c:186-211 | they stand in the order of their first frames |
| Fdb.LastPortIs | sdplane/tap_handler.c:199-206 | the reference port is that of the last frame from the address |
| Tlp.EncodingEnablesExactly | sdplane/nettlp_support.c:5-49 | first DW, last DW and length of a request that fits enable exactly the bytes [addr, addr + count) |
| Tlp.EncodingEnablesExactlyIff | sdplane/nettlp_support.c:5-49 | up to the end of the address space they do so if and only if no sum wraps or the request fills the very last double word |
| Tlp.EncodingFailsAtTheTop | sdplane/nettlp_support.c:5-23 | two requests at the top whose encoding fails |
| Tlp.LengthRoundTripIff | sdplane/tlp.h:103-105 | the length field reads back if and only if the value is below 1024 |
| Tlp.BigEndianRoundTrip | sdplane/nettlp_support.c:58-64 | an address written big-endian reads back |
| Tlp.RequestOnTheWire | sdplane/tlp.h:31-63 | the receiver's kind, length, enables and address, byte by byte as the wire shows them |
| Tlp.ReadMrAddr | sdplane/nettlp_support.c:51-77 | the loop adds exactly the leading run of disabled bytes |
| Tlp.ReadMrDataLength | sdplane/nettlp_support.c:79-104 | the loops subtract all disabled bytes of the first and the trailing run of the last double word |
| Tlp.ReadMwrDataOffset | sdplane/nettlp_support.c:106-124 | the loop skips exactly the leading run of disabled bytes |
| DmaSender.HeaderDecodes | sdplane/nettlp.c:138-166 | 3DW and 4DW headers decode to the encoded fields, whatever the buffer held before |
| DmaSender.HeaderKeeps | sdplane/tlp.h:47-63 | header bits no setter names stay as the buffer had them |
| DmaSender.RequestDecodes | sdplane/nettlp_support.c:51-104 | the receiver's address and byte count invert the sender's encoding |
| DmaSender.EmptyRequestDecodesIffAligned | sdplane/nettlp_support.c:79-104 | an empty request reads back as empty if and only if it is aligned |
| DmaSender.PaddingAgreesIff | sdplane/nettlp.c:177-189 | sender's padding and receiver's skip agree if and only if the first enables are not 1, 2 or 3 |
| DmaSender.RegionFillsLengthIff | sdplane/nettlp.c:177-220 | the bytes laid down total 4 * Length if and only if addr % 4 + count >= 4 |
| DmaSender.WriteRecoversIff | sdplane/nettlp_support.c:106-124 | the receiver recovers every payload if and only if addr % 4 + count >= 3 |
| DmaSender.SendDmaWrite | sdplane/nettlp.c:138-220 | the sending loops lay out exactly the specified packet |
| PsMem.CplHeaderDecodes | sdplane/nettlp.c:571-583 | a completion's length, byte count and lower address read back |
| PsMem.CplIdentifies | sdplane/nettlp.c:571-583 | byte by byte it is a successful CplD of this completer with the request's requester, tag and attributes, and its reserved bit shows a tag bit |
| PsMem.CplNumbers | sdplane/tlp.h:223-226 | its length, byte count and lower address, byte by byte as the wire shows them |
| PsMem.EveryCompletionIdentifies | sdplane/nettlp.c:556-598 | every completion of a legal read identifies itself so |
| PsMem.NegativeCountSpoilsStatus | sdplane/tlp.h:225-226 | a negative byte count, which is not masked, sets all status bits |
| PsMem.LoopEndsIff | sdplane/nettlp.c:557-597 | the split loop ends, for any enables, if and only if the bytes asked for fit the announced double words |
| PsMem.AlignedRequestIsCovered | sdplane/nettlp.c:534-597 | with the reserved address bits zero that holds for every length and all enables |
| PsMem.SenderIsLegal | sdplane/nettlp_support.c:5-49 | the sender's requests have the contiguous enables section 2.2.5 asks for |
| PsMem.CompletionsReassemble | sdplane/nettlp.c:556-598 | a legal read's completions reassemble to exactly the requested bytes, in order |
| PsMem.CompletionsTile | sdplane/nettlp.c:586-595 | the payloads are the announced double words without gap or overlap |
| PsMem.CompletionsCount | sdplane/nettlp.c:556-597 | there are ceil(4 * Length / 256) completions, all but the last of 256 bytes |
| PsMem.ByteCountsAreOwed | sdplane/nettlp.c:579-583 | each Byte Count is the number of bytes still owed, and each Lower Address that of the data |
| PsMem.SplitsAtBoundariesIff | sdplane/nettlp.c:556-595 | completions end on 128-byte boundaries if and only if the start is aligned or nothing is split |
| PsMem.LegalEnablesRange | sdplane/nettlp_support.c:51-104 | every legal request, whoever built it, asks for exactly the enabled bytes of section 2.2.5 from its address on; the data length says so if and only if the Length field is not 0 |
| PsMem.AccessorsRangeIff | sdplane/nettlp_support.c:51-104 | for any enables the accessors' range is the enabled bytes if and only if these are contiguous |
| PsWindow.GuardIsExact | sdplane/nettlp.c:541-548 | for an access by the length the guard is given: it admits one outside the window, or refuses one inside, exactly under the stated wraps |
| PsWindow.GuardIsRightIffNoWrap | sdplane/nettlp.c:610-617 | with a window that does not wrap, an admitted access is inside if and only if it does not wrap |
| PsWindow.StaysIffInside | sdplane/nettlp.c:586-589 | an admitted copy touches only the buffer if and only if it is inside the window |
| PsWindow.FirstDwStaysIff | sdplane/nettlp.c:588-589 | the padding of the first double word comes from the buffer if and only if that double word starts in the window |
| PsWindow.WrappingReadLeavesTheWindow | sdplane/nettlp.c:541-589 | a read of the last eight addresses is admitted and copies eight bytes from outside the buffer |
| PsWindow.WrappingWriteHitsTheStart | sdplane/nettlp.c:610-619 | an eight-byte write across the end of the address space replaces the first four bytes of the window |
| PsWindow.FetchedInside | sdplane/nettlp.c:586-589 | inside the window a copy is a slice of the memory |
| PsWindow.StoreInside | sdplane/nettlp.c:610-619 | inside the window a write replaces exactly its bytes |
| PsReads.LegalReadDelivers | sdplane/nettlp.c:531-598 | an admitted legal read with a nonzero Length field reassembles to exactly the enabled bytes, in order |
| PsReads.EveryReplyIdentifies | sdplane/nettlp.c:571-583 | every completion a legal read is answered with names this completer and the read |
| PsReads.LegalReadDeliversIff | sdplane/nettlp.c:531-598 | a legal read gets the bytes it names if and only if its Length field is not 0 and the guard admits it |
| PsReads.InsideIsAnsweredIff | sdplane/nettlp.c:534-548 | which legal reads of bytes inside a window of whole double words the guard admits |
| PsReads.FullReadDeliversNothing | sdplane/nettlp.c:534-597 | a legal read of 1024 double words inside the default window gets no data |
| PsReads.EndlessRead | sdplane/nettlp.c:557-597 | an admitted read for which the split loop never ends |
| PsDevice.PseudoMemory.Read | sdplane/nettlp.c:531-598 | the loop, its address wrapping, sends exactly the specified completions, and none where the guard refuses |
| PsDevice.PseudoMemory.Write | sdplane/nettlp.c:600-620 | an admitted write puts its bytes where they fall into the buffer, a refused one changes nothing |
| PsDevice.PseudoMemory.Receive | sdplane/nettlp.c:632-717 | reads answer without changing memory, writes change memory without answering, the rest does neither |
| PsDevice.OthersAreIgnored | sdplane/nettlp.c:681-715 | packets that are no reads are not answered, and those that are no writes change nothing |
| DmaRun.MemoryIsByteMap | sdplane/nettlp.c:600-620 | after any run every byte of the window is the one last put there |
| DmaRun.SentWritesStayInside | sdplane/nettlp.c:600-620 | a sender's write that ends before the address space does puts exactly its bytes into the window, or none |
| DmaRun.SentWriteStraysIff | sdplane/nettlp.c:600-620 | a sender's write is admitted outside the window if and only if it ends with the address space |
| DmaRun.InsideIsGrantedIff | sdplane/nettlp.c:541-548 | a read of bytes inside a window is granted if and only if its announced length counted from its address ends in the window or wraps |
| DmaRun.InsideIsGrantedIffAligned | sdplane/nettlp.c:541-548 | in a window of whole double words: if and only if it starts on one or its last is not the window's last |
| DmaRun.LastByteIsRefused | sdplane/nettlp.c:541-548 | a read of the last byte of the default window is refused |
| DmaRun.ReadDeliversIff | sdplane/nettlp.c:531-620 | after any run a read delivers what the map holds if and only if it is granted |
| DmaRun.GrantedIsInside | sdplane/nettlp.c:541-548 | a granted read keeps to the window if and only if it does not wrap |
| DmaRun.MapSliceInside | sdplane/nettlp.c:531-598 | inside the window a read delivers nothing but the bytes last written |
| DmaRun.WrappingReadIsGranted | sdplane/nettlp.c:541-548 | a read the sender can encode is granted and delivers nothing of the window |
| DmaRun.ReadReturnsLastWritten | sdplane/nettlp.c:531-620 | a read after any run is refused by the guard, or delivers what the map holds: last written in the window, foreign beyond it |
| DmaRun.ServeAll | sdplane/nettlp.c:632-717 | sender and device together: every read of a run is answered from the byte map |
| Terminal.Redrawn | lib/zcmdsh/shell.c:246-257 | what going back, overwriting and going back again leaves on the row |
| Words.HeadIsLeast | lib/zcmdsh/shell.c:328-392 | the head is the least start with no delimiter before the point |
| Words.TailIsGreatest | lib/zcmdsh/shell.c:394-424 | the end is the greatest one with no delimiter behind the point |
| Words.Strsep | lib/zcmdsh/shell.c:344-350 | one token: up to the first delimiter, which is overwritten |
| Words.WordHead | lib/zcmdsh/shell.c:328-392 | the strsep loop finds the word's (or subword's) head |
| Words.WordEnd | lib/zcmdsh/shell.c:394-424 | the strsep loop finds the word's end |
| Words.WordPrevHead | lib/zcmdsh/shell.c:462-516 | the strsep loop finds the head of the word before, never past the point |
| Words.WordNextHead | lib/zcmdsh/shell.c:426-460 | the strsep loop finds the word right behind the delimiter, or the line's end |
| Words.NextHeadIs | lib/zcmdsh/shell.c:426-460 | whatever the scan: it is right behind the delimiter that ends the word at the point if a word starts there, and else the line's end |
| Words.PrevHeadIs | lib/zcmdsh/shell.c:462-516 | it is the start of the last word before the point's word, or the line's beginning if there is none |
| LineFormat.FormatRejoins | lib/zcmdsh/shell.c:48-68 | the filter equals splitting into words and joining them with single spaces |
| LineFormat.FormatKeepsWords | lib/zcmdsh/shell.c:48-68 | the words are kept, no leading or doubled space is left |
| LineFormat.FormatFixesTidy | lib/zcmdsh/shell.c:48-68 | a line is unchanged if and only if it has no leading and no doubled space |
| LineFormat.FormatIdempotent | lib/zcmdsh/shell.c:33-102 | formatting twice is formatting once |
| LineFormat.CursorMaps | lib/zcmdsh/shell.c:62-64 | the new cursor stands behind exactly the kept characters before the old one |
| LineFormat.Squeeze | lib/zcmdsh/shell.c:41-68 | the loop yields that line, terminated, and that cursor |
| LineEditor.InsertShows | lib/zcmdsh/shell.c:177-201 | what an insertion writes keeps the screen equal to the line |
| LineEditor.DeleteShowsIff | lib/zcmdsh/shell.c:222-262 | a deletion keeps it if and only if it starts at or before the cursor |
| LineEditor.MoveShows | lib/zcmdsh/shell.c:292-326 | a move keeps it |
| LineEditor.TidyShows | lib/zcmdsh/shell.c:81-101 | formatting keeps it |
| LineEditor.ActShows | lib/zcmdsh/shell_keyfunc.c:151-283 | every key handler keeps it, and keeps the cursor within the line |
| LineEditor.EveryRunIsInSync | lib/zcmdsh/shell.c:626-665 | after any keys the screen shows the prompt, the line, nothing behind it, and the cursor in place |
| LineEditor.RunsAreDetermined | lib/zcmdsh/shell.c:626-665 | the keys determine line and output |
| LineEditor.YankUndoesCut | lib/zcmdsh/shell.c:264-290 | whatever a cut takes out, a yank puts back |
| LineEditor.BackspaceUndoesKey | lib/zcmdsh/shell_keyfunc.c:187-202 | a backspace undoes a typed character |
| LineEditor.TypingEnters | lib/zcmdsh/shell.c:203-210 | typing a text enters it at the cursor, in order |
| LineEditor.WordMotionsProgress | lib/zcmdsh/shell.c:530-549 | a word motion makes way unless the cursor is already at that end |
| LineEditor.DeletedWordIsWhole | lib/zcmdsh/shell.c:518-528 | a backward word deletion takes one whole subword and the delimiters behind it |
| LineEditor.WordBackIs | lib/zcmdsh/shell.c:518-540 | a word motion backward goes to the start of the subword, or of the one before if it stands there |
| LineEditor.MotionKeys | lib/zcmdsh/shell_keyfunc.c:151-177 | ^A, ^B, ^E and ^F, by code: where the cursor goes, and that nothing else changes |
| LineEditor.DeletionKeys | lib/zcmdsh/shell_keyfunc.c:179-202 | ^D, DEL and ^H, by code: which character goes |
| LineEditor.KillKeys | lib/zcmdsh/shell_keyfunc.c:204-217 | ^K and ^U, by code: text, cursor and cut buffer |
| LineEditor.WordAndYankKeys | lib/zcmdsh/shell_keyfunc.c:219-273 | ^W and ^Y, by code: text, cursor and cut buffer |
| LineEditor.TextKeys | lib/zcmdsh/shell_keyfunc.c:248-261 | printable keys, tab and enter, by code |
| LineEditor.RefreshKey | lib/zcmdsh/shell_keyfunc.c:238-246 | ^R keeps the words on their sides of the cursor and squeezes what is before it like the line |
| LineEditor.IdleKeys | lib/zcmdsh/shell_keyfunc.c:13-149 | all other control keys do nothing |
| LineEditor.EscapeKey | lib/zcmdsh/shell.c:626-665 | an escape is remembered for one key and changes no key but ^H |
| LineEditor.EscapeLasts | lib/zcmdsh/shell.c:660-661 | after the key that follows it no escape is pending |
| LineEditor.EscapedBackspace | lib/zcmdsh/shell_keyfunc.c:187-202 | escape ^H deletes a word like ^W |
| LineEditor.EscapeKeymaps | lib/zcmdsh/shell_keyfunc.c:327-347 | what follows an escape when the escape keymaps are installed, key by key |
| Shell.Shell.Insert | lib/zcmdsh/shell.c:177-201 | the growing, terminated buffer and the bytes written follow the specification |
| Shell.Shell.DeleteString | lib/zcmdsh/shell.c:222-262 | the in-place deletion and the bytes written follow the specification |
| Shell.Shell.Cut | lib/zcmdsh/shell.c:264-290 | an empty cut only empties the cut buffer, any other fills it and deletes |
| Shell.Shell.ForwardBy | lib/zcmdsh/shell.c:292-303 | moves and echoes, or does nothing where the line is too short |
| Shell.Shell.BackwardBy | lib/zcmdsh/shell.c:305-316 | moves back, or does nothing where the cursor is too near the beginning |
| Shell.Shell.MoveTo | lib/zcmdsh/shell.c:318-326 | moves to the index in either direction |
| Shell.Shell.Format | lib/zcmdsh/shell.c:33-102 | the new buffer, cursor and bytes written follow the specification |
| Shell.Shell.Handle | lib/zcmdsh/shell_keyfunc.c:151-283 | every handler leads to the specified line and output and keeps cursor <= end < size |
| Shell.Shell.Input | lib/zcmdsh/shell.c:626-665 | one key through the current keymap; an escape lasts for one more key |
| Shell.Shell.Read | lib/zcmdsh/shell.c:713-737 | all keys of a read, one step each |
| Shell.Shell.Session | lib/zcmdsh/shell.c:713-737 | from the first prompt on, after any keys the terminal shows the buffer and the cursor |
| CommandPattern.Strsep | lib/zcmdsh/command.c:642 | one token and the rest |
| CommandPattern.SplitOfJoin | lib/zcmdsh/command.c:775 | words joined by the delimiter are split into the same words |
| CommandPattern.JoinOfSplit | lib/zcmdsh/command.c:775 | the tokens joined again are the line |
| CommandPattern.ParsePrint | lib/zcmdsh/command.c:642-662 | alternatives written with or without brackets, mixed, parse back to themselves |
| CommandPattern.InnerOfBare | lib/zcmdsh/command.c:648-659 | a word without brackets is taken as it is |
| CommandPattern.InnerOfBrackets | lib/zcmdsh/command.c:648-659 | of a bracketed word only what stands between the brackets counts |
| CommandPattern.InnerOfOpened | lib/zcmdsh/command.c:648-659 | without a closing bracket everything behind the opening one counts |
| CommandPattern.InnerOfClosed | lib/zcmdsh/command.c:648-659 | without an opening bracket everything before the closing one counts |
| CommandPattern.BareWordParses | lib/zcmdsh/command.c:648-662 | a bare word stands for itself alone |
| CommandPattern.BarePattern | lib/zcmdsh/command.c:642-708 | a pattern of bare words stands for exactly these words |
| CommandPattern.ExpansionsHold | lib/zcmdsh/command.c:661-708 | the cross product holds exactly the choices of one alternative a word, empty ones left out |
| CommandTrie.NamedIsChild | lib/zcmdsh/command.c:406-418 | whatever the order of siblings, the exact match is the node one word further |
| CommandTrie.PassedArePrefixes | lib/zcmdsh/command.c:673-707 | what an install makes known are exactly the prefixes of the expansions |
| CommandTrie.CommandSet.AddChild | lib/zcmdsh/command.c:690-698 | one more known word sequence, without a function, everything else kept |
| CommandTrie.CommandSet.AddWord | lib/zcmdsh/command.c:661-708 | every alternative below every parent; fails if and only if a node is reached twice |
| CommandTrie.CommandSet.Install | lib/zcmdsh/command.c:608-741 | aborts if and only if two expansions are equal; else every expansion runs the function, prefixes become known, the rest stays |
| CommandMatch.KeywordIsNoVariable | lib/zcmdsh/command.c:420-462 | no typed word matches a plain keyword as a variable |
| CommandMatch.VariableTests | lib/zcmdsh/command.c:420-462 | which test each kind of variable puts to a word |
| CommandMatch.PrioritiesDescend | lib/zcmdsh/command.c:492-510 | the order in which kinds of variables are preferred |
| CommandMatch.MatchUnique | lib/zcmdsh/command.c:522-558 | chooses the only match if it is a keyword match, or without keyword matches the first of the best variables, else nothing |
| CommandMatch.FullWordSelects | lib/zcmdsh/command.c:560-573 | a word typed in full selects its node, whatever else it matches |
| CommandMatch.WordSelectedIff | lib/zcmdsh/command.c:522-573 | a word selects a node, keyword or variable, if and only if it is the node's word, abbreviates it alone, or is a value it takes before all others |
| CommandMatch.KeywordSelectedIff | lib/zcmdsh/command.c:522-573 | a word selects a keyword if and only if it is the keyword or an abbreviation that nothing else known there matches |
| CommandMatch.NothingSelectedIff | lib/zcmdsh/command.c:547-573 | a word selects nothing if and only if it is unknown in its place: no known word, and matching none or several |
| CommandMatch.Execute | lib/zcmdsh/command.c:754-823 | the loop runs the function of the node the walk ends at, with the words walked |
| CommandMatch.SpelledLineRuns | lib/zcmdsh/command.c:775-815 | a line that spells a known sequence runs its function on the typed words, abbreviations and values of variables included |
| CommandMatch.BlankEndsLine | lib/zcmdsh/command.c:777-779 | an empty word ends the line: what was spelled before it runs |
| CommandMatch.EmptyLineRunsNothing | lib/zcmdsh/command.c:763-818 | an empty line runs nothing |
| CommandMatch.UnknownWordRunsNothing | lib/zcmdsh/command.c:781-818 | a word unknown in its place stops everything: nothing runs, whatever was spelled before it or follows |
| CommandMatch.LineWordRuns | lib/zcmdsh/command.c:794-815 | a word that takes the rest of the line ends it and its function runs |
| CommandMatch.StrstrIs | lib/zcmdsh/command.c:796 | its argument starts at the first occurrence of the word's text in the line |
| CommandMatch.ViewIsLastFunc | lib/zcmdsh/command.c:719-726 | after any installs a sequence's function is that of the last command expanding to it |
| CommandMatch.InstalledBy | lib/zcmdsh/command.c:719-726 | and no later command expands to it |
| CommandMatch.KnownIff | lib/zcmdsh/command.c:673-707 | after any installs the known sequences are exactly the prefixes of expansions |
| CommandMatch.BareCommandRuns | lib/zcmdsh/command.c:608-741 | a command of bare words never aborts and runs the function it was last installed with |
| CommandMatch.InstallAll | lib/zcmdsh/command.c:608-741 | a run of installs succeeds if and only if no command repeats an expansion |
| CommandMatch.LastInstalledRuns | lib/zcmdsh/command.c:754-823 | executing a spelled expansion, variables filled in, runs the last function installed for it |
| CommandMatch.TypedInFullRuns | lib/zcmdsh/command.c:754-823 | so does every expansion typed in full |

## Left out

- The QCONF2 message with its fixed table: its only sender is commented out (`sdplane/queue_config.c:180`).
- Device calls, queue setup, mbuf pools, transmit buffers, logging and statistics; their results are
  parameters where they matter (`PortStatus` carries the device's answers).
- The quiescent-state primitives are taken by their specification: a grace period ends when every
  worker online at its start has since reported a quiescent state or left.
- Allocation is assumed to succeed except for the zero rib. A rejected message leaks the candidate
  rib it allocated; the model does not track unpublished memory.
- `RTE_MAX_LCORE` and `RTE_MAX_ETHPORTS` are not set in this repository; the DPDK defaults 128 and
  32 are used. Queue ids and port ids fit their arrays.
- QueueConfig.ThreadQconf.SetThreadLcorePortQueue: takes lcores below `RTE_MAX_LCORE`; the command's
  pattern also admits 128, for which the source has no record.
- RibCheck.Check: takes tables of at most 256 entries with ports in range, which is what the fixed
  arrays of the source hold; beyond that the source overruns them, and nothing here speaks of it. Sorting
  is modelled by its contract (sorted by the comparator, a permutation).
- RibProtocol.EveryRunIsSafe: ranges over all messages, but says something about the source only for
  messages whose merged table fits those arrays; with at most 16 lcores the size always does.
- RibManager.Manager.ProcessMessage: takes messages whose merged table fits those arrays.
- RibManager.Manager.Run: takes runs of such messages.
- QueueConfig.ThreadQconf.Run: takes commands for lcores below `RTE_MAX_LCORE`, like the command itself.
- The tap copies of nettlp use a remembered port and queue that may be stale after a change; the
  ring results are about the queue a worker is polling. Unsent packets after a burst are not followed.
- VSwitch.VSwitch.Update: is modelled as a call; when the handler makes it depends on a version
  variable the source never initialises. Port names are left out, and a reused slot's socket is
  whatever it was.
- Ethernet, IPv4 and UDP headers around the requests, checksums and random identifiers.
- `tlp_cpld_data`: it skips 4 or 8 bytes behind a header that has no such field; reassembly is
  defined from the layout of the completer, with `tlp_cpld_data_length`.
- Tlp.LastDw: takes the requests whose encoding is right, which Tlp.EncodingEnablesExactlyIff says exactly;
  requests past the end of the 64-bit address space are not considered.
- PsDevice.PseudoMemory.Read: takes requests for which the loop ends, which PsMem.LoopEndsIff says
  exactly. What a copy finds beyond the buffer is a parameter; in C such a copy is undefined.
- PsDevice.PseudoMemory.Write: takes packets that hold the data they announce; the source trusts the
  announced length. What it overwrites beyond the buffer is not tracked. The memory is taken as allocated.
- Keys that clear the screen, completion, help and history keys, control characters inside the line,
  wrapping of long lines, and an editor without an output descriptor. Prompts are printable text.
- Words of typed lines and patterns are strings here; the source cuts a copy in place and lets nodes
  point into it. The word scanners of the editor are modelled on the copy itself.
- Address, range, number and file tests of variable words are library calls: parameters of the match.
- `command_install` without alternatives, completion, help strings, the pager, telnet and the pty.
- Which of several equally good variables is chosen depends on the order of siblings, which the
  broken comparison leaves open.
