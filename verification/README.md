# Verified models of the loader family

Machine-checked models, in Dafny, of the parts of this repository where several functions share
state and a whole run has to stay correct. `dafny verify dfyconfig.toml` checks all of it.

The code that updates state in place is modelled in place: `SifBuilder.BuildDmaJob` fills an array,
`SifEngine.DmaEngine`, `SifBroker.SifBroker`, `SmapClient.SmapClient`, `DedupCache.DedupState`,
`DedupHost.Console`, `XboxRelocation.Machine`, `XboxClock.Clock`, `FlashLog.Partition`,
`Syscon.Driver` and `ConsoleLines.LineWriter` are classes whose methods are proved equal to
functions on values. What the system promises is then proved about runs of those functions.

| area | modules | what is proved |
|---|---|---|
| PlayStation 2 SIF1 DMA (`ee_sif.c`) | SifStream, SifBuilder, SifFifo, SifRing, SifEngine, SifTransfers, SifCommands | descriptor lists are compiled to chains that deliver them; the ring of slots refines a sequential queue; memory after draining is the accepted transfers in order |
| duplicate requests (`dedup.c`, `console.c`, guest network code) | DedupCache, DedupHost, DedupArrivals, DedupSession | at-most-once dispatch exactly when the ids fit half the 32-bit circle; accepted return values are true |
| Xbox identity relocation (`target.c`) | XboxPaging, XboxRelocation | the image survives; exactly for which frames the whole move is right; code reads the same throughout |
| PlayStation 2 SIF broker (`sif_broker.c`) | BrokerModel, BrokerLedger, BrokerRuns, BrokerReplies, BrokerOwners, SifBroker | one owner for each IOP heap block, freed once; exactly which steps lose a block; each accepted request completes at most once; exactly which request a reply completes, and with what |
| PlayStation 2 network transmit (`iop_smap.c`, `smap_irx.c`) | SmapModel, SmapRuns, SmapDelivery, SmapSync, SmapClient | frames are accepted at most once and unaltered over failing RPCs, and accepted ones go out; exactly which frames lost calls lose, in one flush and over whole runs |
| firmware update (`firmware_update.c`) | Sh4Machine, Sh4Trampoline, AllegrexMachine, AllegrexTrampoline, FirmwareBlob | running the uploaded machine code installs the firmware, for exactly which sizes |
| Xbox clock (`rtc.c`) | Calendar, XboxClock | inverse calendar loops that agree with POSIX; set then get in all four modes |
| Dreamcast flashrom (`target.c`) | FlashCrc, FlashLog | the unmasked loop is a CRC that detects small changes; an interrupted update is harmless; exactly which slots keep an update |
| Dreamcast packet copies (`memfuncs.c`) | PacketCopy | the software-pipelined loop shifts by two bytes; the width-picking copy is a byte copy |
| PSP system controller (`syscon.c`) | SysconPackets, Syscon | one request and at most five polls, all well formed; success exactly on a valid reply |
| host console output (`console.c`) | ConsoleLines | nothing is lost, repeated or reordered; inside a trace the cuts between calls do not show |

`Bytes` holds the integer widths, the little-endian encodings and the few facts about sequences the others share.

## Where the code and its comments differ

The models follow the code.

- host/src/dedup.c:71-73 says an aborted dispatch leaves the previous cache intact. Its packets are laid over the old
  reply, which is intact exactly when both agree as far as both go (`DedupCache.AbandonedAfterSending`). The console
  loop never gets there: the one dispatch it abandons is an exit, which sends nothing (`DedupHost.ExitKeepsTheReply`).
- host/src/dedup.c:61-62 calls the wrap of the seq ids unreachable in practice. Over arbitrary delays the
  signed difference is safe exactly for ids on one half of the circle (`DedupArrivals.AtMostOnceExactly`).
- host/src/firmware_update.c:115 lists RB=1 among the SR bits; the constant 0x500000F0 has RB=0. Switching banks
  mid-run would change R0 to R7, and `Sh4Trampoline.SetStatus` accounts for both starting states.
- The SH4 trampoline takes sizes up to 0xC00B, eleven bytes into itself: five instructions it has left behind, and
  in the last round a byte of an instruction that does not run again. If stored bytes reach instruction fetch at
  once, no larger size works for every firmware (`Sh4Trampoline.SizesThatWork`); a stale instruction cache might hide it.
- host/src/firmware_update.c:614 says the Allegrex payload starts at base+0x100; the code reads it from base+0x200.
- client/playstation2/iop_smap.c:402-406 says a failed batch leaves the IOP's numbers where they were. When only
  the reply is lost they have moved (`SmapRuns.LostReplySpends`) and the resubmissions are refused
  (`SmapRuns.SinglesOfSpent`), so that nothing is lost; a frame is lost exactly when the batch request and its own
  request are (`SmapSync.EntryIsTakenExactly`).
- client/playstation2/sif_broker.c:100-106 matches replies by client alone. A reply completes the request it answers
  exactly if no open, close or earlier reply naming the client came in between (`BrokerRuns.ReplyFiresItsRequestExactly`).
- client/playstation2/sif_broker.c:503-506 says open() after a crash cleans the stale per-guest state. The heap blocks in the table are
  forgotten, not freed (`BrokerRuns.OpenLeaksTheTable`), and both open() and close() lose the staging block of a load in
  flight (`BrokerRuns.CloseLeaksStaging`). `BrokerOwners.NothingIsLostExactly` says which steps of a run lose a block.
- client/dreamcast/target.c:250-255 admits slot num_blocks - 2, whose block is the bitmap, and num_blocks - 1, past the end.
  With ten blocks or more an update in either is not found afterwards (`FlashLog.NewBlockIsFoundExactly`).
- client/psp/syscon.c:272-281 checks sum and length, but a change of the length byte can go unnoticed, exactly when it and
  the bytes it adds or drops sum to a multiple of 256 (`SysconPackets.LengthChangeUnnoticedExactly`).
- host/src/console.c:351-355 relies on banners at the start of a call. Behind other lines one is seen exactly if the
  call starts with a dash (`ConsoleLines.BannerIsSeenExactly`).

## Model

| member | source | states |
|---|---|---|
| SifStream.DescriptorMeans | client/playstation2/ee_sif.c:354-371 | A descriptor is taken if its size is not negative, it has a source unless empty, and it fits the 128-byte command buffer if that is where it goes |
| SifStream.BlockRoundsUp | client/playstation2/ee_sif.c:346-373 | For a well-formed descriptor the padded block is the least multiple of 16 that holds it, with no 32-bit wrap |
| SifStream.WalkIsTagByTag | client/playstation2/ee_sif.c:389-395 | A chain that runs to its end can be run tag by tag, and its last tag, and no other, is the REFE tag |
| SifStream.TagRoundTrip | client/playstation2/ee_sif.c:389-395 | The quadword count and tag id packed into a DMA tag are read back unchanged |
| SifStream.HeaderRoundTrip | client/playstation2/ee_sif.c:379-387 | A record header gives back the masked destination and the two attribute bits |
| SifStream.CompiledChainRuns | client/playstation2/ee_sif.c:334-406 | Running a compiled chain never leaves it and delivers the descriptors in order: masked destination, source bytes, zero padding to the block |
| SifBuilder.BuildDmaJob | client/playstation2/ee_sif.c:334-406 | Accepts exactly the lists of 1 to 8 descriptors with valid sizes and sources whose tags and padded records fit 1024 bytes; the accepted stream delivers exactly what was asked for |
| SifBuilder.CompileOne | client/playstation2/ee_sif.c:346-401 | One round of the compiler: refuses exactly the bad or overflowing descriptors, otherwise lays out the next tag and record and keeps the earlier ones |
| SifBuilder.PlaceRecord | client/playstation2/ee_sif.c:375-395 | Source bytes, header and tag land in their places and nothing else in the stream changes |
| SifFifo.ChannelStepKeepsEventually | client/playstation2/ee_sif.c:421-439 | Channel progress never changes what IOP memory will be once everything is delivered, and shortens what is left |
| SifFifo.SubmitIsSequential | client/playstation2/ee_sif.c:441-472 | A submission is accepted exactly when its list compiles and the queue has room, and then appends its transfer to everything outstanding |
| SifFifo.StepKeepsHistory | client/playstation2/ee_sif.c:441-494 | Submissions, polls and channel progress keep slots, ids and the log of accepted transfers in agreement; the log only grows |
| SifFifo.RunIsSequential | client/playstation2/ee_sif.c:408-494 | Over every interleaving, IOP memory ends up as if the accepted transfers had been applied one after the other with their submit-time bytes |
| SifFifo.RunFromReset | client/playstation2/ee_sif.c:146-166 | From reset, an idle queue means memory is exactly the accepted transfers in order |
| SifFifo.StatusOnlyAdvances | client/playstation2/ee_sif.c:474-494 | The status of an accepted transfer only moves from queued to running to finished |
| SifFifo.LiveIdsDiffer | client/playstation2/ee_sif.c:315-321 | While the oldest live transfer is younger than 2^31 - 1 ids, no two occupied slots share an id |
| SifFifo.ReportIsTrue | client/playstation2/ee_sif.c:474-494 | For a transfer that is recent in that sense a poll reports its true status |
| SifFifo.ReportIsTrueExactly | client/playstation2/ee_sif.c:474-494 | An answer that looks at the running transfer before the waiting ones, as the scan does while occupied slots have distinct ids, is right for an accepted transfer if and only if no live transfer it prefers was given an id a multiple of 2^31 - 1 ids away |
| SifFifo.ReusedIdMisreports | client/playstation2/ee_sif.c:315-321 | The bound is exact: after that many ids a poll for a finished transfer reports a newer one as running |
| SifFifo.PollingDrains | client/playstation2/ee_sif.c:421-439 | Polling while the channel works empties the queue, whatever was in it |
| SifRing.FullMeansNoFreeSlot | client/playstation2/ee_sif.c:323-332 | The ring stands for a full queue exactly when no slot is free |
| SifRing.PumpRefines | client/playstation2/ee_sif.c:421-439 | Retiring the finished job and starting the head of the ring is one step of the queue, and keeps each QUEUED slot in the ring exactly once and at most one RUNNING |
| SifRing.SetDmaRefines | client/playstation2/ee_sif.c:441-472 | A submission on slots, head, tail and count is a submission to the queue, with the same id |
| SifRing.SetDmaMeans | client/playstation2/ee_sif.c:441-472 | A submission returns the next id exactly if its list compiles and a slot is free once the ring is pumped; an id is used up by any list of a permitted length that finds a slot; anything else only pumps |
| SifRing.ChannelStepRefines | client/playstation2/ee_sif.c:408-419 | The channel working on the current slot is the channel step of the queue |
| SifRing.StatusRefines | client/playstation2/ee_sif.c:474-494 | With distinct ids, scanning the slots gives the queue's own answer |
| SifRing.PolledStatusIsTrue | client/playstation2/ee_sif.c:474-494 | What the slot scan answers about a recent accepted transfer is its true status |
| SifRing.PollReportsTheAnswerer | client/playstation2/ee_sif.c:474-494 | Whatever ids repeat, the scan reports the phase of the transfer in the lowest slot that carries the id |
| SifRing.PolledStatusIsTrueExactly | client/playstation2/ee_sif.c:474-494 | For every accepted transfer, however old, the slot scan is right if and only if the live transfer in the lowest slot with its id, if there is one, is running exactly when the polled one is, and the polled one is not finished |
| SifRing.ReusedIdIsMisreported | client/playstation2/ee_sif.c:474-494 | A run that fails: with exactly 2^31 - 1 ids handed out since, a poll for a finished transfer is answered with the status of a newer one |
| SifEngine.DmaEngine.ResetState | client/playstation2/ee_sif.c:146-166 | Reset leaves an empty ring whatever the buffers held |
| SifEngine.DmaEngine.ChannelWorks | client/playstation2/ee_sif.c:408-419 | The channel fetches the next tag from the running stream buffer, delivers its record and stops after REFE |
| SifEngine.DmaEngine.StartDmaJob | client/playstation2/ee_sif.c:408-419 | Starting a job makes its slot current and RUNNING and sets the start bit |
| SifEngine.DmaEngine.Pump | client/playstation2/ee_sif.c:421-439 | The in-place pump is the pump of SifRing |
| SifEngine.DmaEngine.NextDmaId | client/playstation2/ee_sif.c:315-321 | Hands out the current id and steps it, skipping 0 and negatives |
| SifEngine.DmaEngine.FindFreeDmaJob | client/playstation2/ee_sif.c:323-332 | Finds the lowest free slot, or none |
| SifEngine.DmaEngine.SetDma | client/playstation2/ee_sif.c:441-472 | The whole new ring and the returned id are those of the ring specification, whatever the list |
| SifEngine.DmaEngine.DmaStat | client/playstation2/ee_sif.c:474-494 | Pumps, then answers from the first slot with the id; id 0 is answered without pumping |
| SifTransfers.WaitDmaDone | client/playstation2/ee_sif.c:507-519 | Success means the transfer and everything accepted before it is in IOP memory; waiting never changes what memory will be |
| SifTransfers.IopWrite | client/playstation2/ee_sif.c:585-618 | Writes whole chunks in order, for every size. Success means all of them were accepted and delivered: clear of the command buffer and of address wrap the bytes are then in IOP memory, zeros fill up the last quadword, and nothing else has changed |
| SifTransfers.ChunksAreOneCopy | client/playstation2/ee_sif.c:585-618 | The 992-byte chunks amount to one copy padded to 16 bytes, when no chunk is addressed to the command buffer |
| SifCommands.SendCmd | client/playstation2/ee_sif.c:551-583 | Queues its list exactly when the packet size is 1 to 112, the command buffer is known, the list compiles and a slot is free. IOP memory then ends up with the command at its buffer - packet size, 24-bit payload size, payload destination or 0, command id, and the caller's bytes from 12 on - and the payload, but for what the command's 128 bytes cover; success means both have arrived |
| SifCommands.CommandArrives | client/playstation2/ee_sif.c:556-581 | What delivering an accepted command's list leaves in IOP memory, byte by byte |
| SifCommands.OnlyTheCommandInterrupts | client/playstation2/ee_sif.c:565-581 | The command's record raises the interrupt and ends the transfer, the payload's does neither |
| SifCommands.PayloadLimit | client/playstation2/ee_sif.c:551-583 | Exactly which payloads are accepted: 832 bytes rounded to 16 elsewhere, 128 bytes for the command buffer itself |
| SifCommands.BareCommandCompiles | client/playstation2/ee_sif.c:551-583 | A command without payload always compiles |
| SifCommands.PayloadBeforeCommand | client/playstation2/ee_sif.c:565-581 | The payload reaches IOP memory before the command packet does |
| DedupCache.TrailerIsExtracted | host/src/dedup.c:27-40 | The seq id of any payload with a KSQ0 trailer is read back |
| DedupCache.TrailerExactly | host/src/dedup.c:27-40 | A payload carries seq s if and only if its last eight bytes are the magic and s in network order |
| DedupCache.CaptureAllKeeps | host/src/dedup.c:76-88 | A capture keeps the first 64 packets of at most 2048 bytes, in order, and leaves the rest of the array alone |
| DedupCache.ReplayIsTheDispatch | host/src/dedup.c:42-98 | After a whole dispatch, only its own seq within the window is answered, with exactly the packets kept |
| DedupCache.AbandonedBeforeSending | host/src/dedup.c:66-74 | A dispatch abandoned before sending anything that fits leaves the previous reply in place |
| DedupCache.AbandonedAfterSending | host/src/dedup.c:66-88 | After an abandoned dispatch the previous request is answered with the packets it stored laid over the old ones; the old reply is intact if and only if both agree as far as both go |
| DedupCache.DedupState.TryReplay | host/src/dedup.c:42-56 | Sends the stored packets in order exactly on a hit |
| DedupCache.DedupState.BeginCapture | host/src/dedup.c:66-74 | Begins a capture: timestamp and counters only |
| DedupCache.DedupState.CapturePkt | host/src/dedup.c:76-88 | Stores one packet that fits, drops the others |
| DedupCache.DedupState.EndCapture | host/src/dedup.c:90-98 | Commits the capture; does nothing when none is open |
| DedupHost.LegacyTrafficBypassesCache | host/src/console.c:2676-2704 | A packet without a trailer never changes the cache and is never replayed or dropped as stale |
| DedupHost.TraileredIsRunExactly | host/src/console.c:2684-2727 | When a request with a trailer is replayed, dropped, run or an exit, by the distance of its seq from the last one and the age of the capture |
| DedupHost.WireFields | host/src/console.c:1384-1432 | The layout of a reply: command, address and size in network order, at most 2028 data bytes, and the captured seq behind a RETVAL |
| DedupHost.OnlyPushesAreOffered | host/src/console.c:1421-1432 | The cache is offered only packets the socket took that push data |
| DedupHost.ExitKeepsTheReply | host/src/console.c:2684-2727 | The one dispatch the loop abandons, an exit, sends nothing and leaves the previous reply intact |
| DedupHost.Console.Transmit | host/src/console.c:1384-1432 | A RETVAL sent during a capture carries the captured seq; what the socket took is offered to the cache |
| DedupHost.Console.HandlePacket | host/src/console.c:2675-2770 | One turn of the loop: a request without a trailer is run on every arrival, its sends go out without a trailer and the cache stays; one with a trailer is run exactly if it is newer than the last request, or the first, and becomes the last; the last request again is replayed inside the window; everything else is dropped; an exit request stops the loop |
| DedupArrivals.ReceiveKeepsHost | host/src/console.c:2684-2770 | The host dispatches only requests newer than the last one and keeps its cache in step with the newest dispatch |
| DedupArrivals.RunKeepsHost | host/src/console.c:2675-2770 | Over any arrivals dispatched seqs are in signed-delta order and each came in some packet |
| DedupArrivals.DispatchedAtMostOnce | host/src/dedup.c:58-64 | With ids on one half of the circle each is dispatched at most once, whatever the network does and whatever the replay window |
| DedupArrivals.SpreadIdsRepeat | host/src/dedup.c:58-64 | Ids that fit no half circle can arrive in an order that dispatches one of them twice |
| DedupArrivals.AtMostOnceExactly | host/src/dedup.c:58-64 | At-most-once holds for all arrivals if and only if the ids in use fit one half of the circle |
| DedupArrivals.AllKeptIsAll | host/src/dedup.c:76-88 | When everything a handler sends fits, the cache holds all of it |
| DedupArrivals.RetransmitIsHarmless | host/src/console.c:2684-2702 | A repeat of the newest request changes nothing and is answered by the kept packets inside the window, dropped after it |
| DedupSession.CounterCounts | client/common/network/network_syscalls.c:134-150 | The guest's counter gives request k the number k mod 2^32 - 1, plus 1: never 0 |
| DedupSession.SeqOrder | host/src/dedup.c:58-64 | Requests at most 2^31 - 2 apart compare by number as they were issued |
| DedupSession.RetvalWire | host/src/console.c:1403-1419 | Every RETVAL of a dispatch ends with the dispatch's seq and starts with its result |
| DedupSession.AcceptsExactly | client/common/core/commands.c:560-592 | The guest turns down a RETVAL exactly if it ends in the magic and another request's number |
| DedupSession.AnswerGetsThrough | client/common/core/commands.c:560-612 | In any reachable session: a fresh request that reaches the listening host is executed, and a RETVAL of its handler that reaches the guest while it waits is accepted with the handler's result |
| DedupSession.ArriveKeeps | host/src/console.c:2684-2770 | A request arriving again, late or out of order keeps the session invariant |
| DedupSession.AcceptedIsTrue | client/common/core/commands.c:560-612 | A RETVAL the guest accepts is the answer of the dispatch of the request it waits for |
| DedupSession.ShortSessionsTolerateAnyDelay | client/common/network/network_syscalls.c:211-285 | In a session of fewer than 2^31 requests a packet may be delayed for ever |
| DedupSession.StepKeeps | host/src/console.c:2675-2770 | Every step of guest, network and host keeps the session invariant |
| DedupSession.SessionIsSafe | host/src/console.c:2675-2770 | Over any loss, duplication, reordering and delay: requests are dispatched at most once in the order issued, and every accepted RETVAL is the true result of its request |
| XboxPaging.CopyViaIsFaithful | client/xbox/target.c:200-205 | When no page sits on another page's identity frame, copying through the stale mapping puts every byte in place |
| XboxPaging.CrossedFramesBreak | client/xbox/target.c:200-205 | When one does, some memory contents are copied wrongly |
| XboxPaging.FaithfulExactly | client/xbox/target.c:200-205 | The copy is faithful for every memory if and only if no page's frame is the identity frame of another page |
| XboxPaging.RewrittenKeepsFlags | client/xbox/target.c:209-216 | Rewriting an entry keeps its low 12 bits and points it at its own page |
| XboxPaging.RewrittenIsIdentity | client/xbox/target.c:209-239 | Under the rewritten table VA equals PA |
| XboxPaging.ReadsAgreeMidway | client/xbox/target.c:209-216 | At any moment of the rewrite old and new translation of a copied address read the same byte |
| XboxRelocation.ImageSurvives | client/xbox/target.c:162-243 | After the switch the image reads as before, the stack reads as it stood in the final block, and bytes after the stack top are whatever lay in the identity frames, which the stack may have used |
| XboxRelocation.MovedMeansIdentity | client/xbox/target.c:209-239 | After the move every image address is its own physical address, with its entry's flags kept |
| XboxRelocation.CodeStaysReadable | client/xbox/target.c:200-239 | At each stage of the move the code and data below the stack read the same through the old frames and the new ones |
| XboxRelocation.MoveIsRightExactly | client/xbox/target.c:162-243 | The whole move - image copy, the stack written meanwhile, stack copy - leaves code readable at every stage and the stack intact, for every content, if and only if no moved page's frame is another moved page's destination, but for a stack page's frame that is the destination of a later stack page |
| XboxRelocation.FourBytes | client/xbox/target.c:220-239 | Moving a dword by one load and one store is moving its four bytes |
| XboxRelocation.Machine.AlreadyIdentity | client/xbox/target.c:180-192 | True if and only if every page of the image is present and in its own frame |
| XboxRelocation.Machine.CopyBytes | client/xbox/target.c:200-205 | Copies the range through the mapping the processor holds |
| XboxRelocation.Machine.CopyDwords | client/xbox/target.c:220-239 | Copies the live stack, four bytes at a time, as the byte copy would |
| XboxRelocation.Machine.RewriteEntries | client/xbox/target.c:209-216 | Rewrites exactly the entries of the image's pages |
| XboxRelocation.Machine.RelocateIdentity | client/xbox/target.c:162-243 | Moves if and only if some page of the image is not present or not in its own frame; on both paths every image address is its own physical address afterwards and keeps its entry's low bits; otherwise exactly the specified memory, table and TLB |
| BrokerRuns.FreedOncePerTake | client/playstation2/sif_broker.c:158-181 | Over every run from power-on a block is successfully freed at most once for each time it was obtained |
| BrokerLedger.FreeAllKeeps | client/playstation2/sif_broker.c:512-542 | Freeing a list of distinct live blocks removes exactly those the IOP does not refuse |
| BrokerLedger.EachIsAttempted | client/playstation2/sif_broker.c:512-542 | Every recorded block is attempted |
| BrokerLedger.DrainKeeps | client/playstation2/sif_broker.c:169-181 | Draining the deferred queue keeps the ledger and frees at most its one block |
| BrokerLedger.CloseKeeps | client/playstation2/sif_broker.c:512-542 | Close keeps every block in at most one place |
| BrokerLedger.AllocKeeps | client/playstation2/sif_broker.c:431-457 | So does an allocation, recorded or handed back when the table is full |
| BrokerLedger.FreeKeeps | client/playstation2/sif_broker.c:459-481 | So does a free, known or unknown |
| BrokerLedger.LoadBufferKeeps | client/playstation2/sif_broker.c:715-833 | So does a module load from a buffer, on every path including a failed send |
| BrokerLedger.LoadPathKeeps | client/playstation2/sif_broker.c:844-942 | So does a module load by path |
| BrokerRuns.RunKeeps | client/playstation2/sif_broker.c:431-942 | Over every run: each heap block is owned in at most one place, the deferred queue never holds more than one block, active clients are distinct and INFLIGHT, and the load flag is set exactly while one of them loads a module |
| BrokerRuns.ReplyCompletes | client/playstation2/sif_broker.c:288-376 | A reply naming an active client completes its submission, once, and frees the slot |
| BrokerReplies.BindIsAnswered | client/playstation2/sif_broker.c:288-323 | An accepted bind, whatever others do meanwhile: its reply leaves the server and both buffers it names, and OK, or ENOSRV when it names no server |
| BrokerReplies.CallIsAnswered | client/playstation2/sif_broker.c:288-323 | An accepted call: its reply leaves OK and keeps the binding |
| BrokerReplies.LoadIsAnswered | client/playstation2/sif_broker.c:288-323 | An accepted module load: its reply leaves the module id, or EBADARG for a negative one |
| BrokerReplies.BoundClientCanCall | client/playstation2/sif_broker.c:588-713 | After a bind answered with a server and a buffer, a call with valid buffers goes out |
| BrokerReplies.BuffersAccepted | client/playstation2/sif_broker.c:656-666 | Exactly which send and receive buffers a call takes, and which refusal is for alignment |
| BrokerReplies.SessionBounds | client/playstation2/sif_broker.c:485-542 | Open starts an empty session, close ends one with the queue drained; neither touches a client struct |
| BrokerReplies.TransferAnswers | client/playstation2/sif_broker.c:395-429 | Exactly when a transfer answers OK, EALIGN and ENOSESSION |
| BrokerReplies.AllocAnswers | client/playstation2/sif_broker.c:431-457 | Exactly when an allocation succeeds, with its block in the table, and when it answers ENOMEM |
| BrokerReplies.FreeAnswers | client/playstation2/sif_broker.c:459-481 | Exactly when a free succeeds |
| BrokerReplies.BindAnswers | client/playstation2/sif_broker.c:588-639 | Exactly when a bind goes out and when it answers EBUSY |
| BrokerReplies.CallAnswers | client/playstation2/sif_broker.c:641-713 | Exactly when a call goes out and when it answers EBUSY or EALIGN |
| BrokerReplies.LoadAnswers | client/playstation2/sif_broker.c:715-833 | Exactly when a module load from a buffer goes out and when it answers EBUSY or ENOMEM |
| BrokerReplies.PathAnswers | client/playstation2/sif_broker.c:844-942 | Exactly when a module load by path goes out and when it answers EBUSY |
| BrokerRuns.StrayReplyIsIgnored | client/playstation2/sif_broker.c:344-376 | A reply naming no active client changes nothing |
| BrokerRuns.AcceptedOrWithoutTrace | client/playstation2/sif_broker.c:588-712 | A bind or call is either accepted into one slot or leaves the slots and the history as they were |
| BrokerRuns.LoadBufferAcceptedOrWithoutTrace | client/playstation2/sif_broker.c:715-833 | So is a module load from a buffer |
| BrokerRuns.LoadPathAcceptedOrWithoutTrace | client/playstation2/sif_broker.c:844-942 | So is a module load by path |
| BrokerRuns.SessionEndAbandons | client/playstation2/sif_broker.c:485-542 | Close and a fresh open withdraw everything that has not completed |
| BrokerRuns.AbandonedNeverFires | client/playstation2/sif_broker.c:344-376 | No later run fires done() for a withdrawn submission |
| BrokerRuns.ReplyFiresItsRequestExactly | client/playstation2/sif_broker.c:100-114 | Replies name the client only: after any run the reply to a submission completes that submission if and only if the run had no open, no close and no earlier reply naming the client |
| BrokerRuns.WithdrawnClientStaysBusy | client/playstation2/sif_broker.c:588-600 | A client withdrawn in flight by close or open is answered EBUSY, and nothing changes, after every run in which the guest does not wipe its struct, whatever replies arrive |
| BrokerRuns.LateReplyCompletesTheNextRequest | client/playstation2/sif_broker.c:100-114 | A witness of the other side: after close, open and reuse of the struct a late reply completes the next request |
| BrokerRuns.CloseFreesEveryRecordedBlock | client/playstation2/sif_broker.c:512-542 | Close attempts every block in the table and in the deferred queue; what remains out is exactly what the IOP refused |
| BrokerRuns.OpenLeaksTheTable | client/playstation2/sif_broker.c:485-510 | A fresh open without close leaves the old table's blocks out with no owner |
| BrokerRuns.CloseLeaksStaging | client/playstation2/sif_broker.c:512-542 | Close loses the staging block of a load still in flight |
| BrokerOwners.StepLosesExactly | client/playstation2/sif_broker.c:431-942 | After any step a block is out with no owner if and only if it was so before or the step loses it: open forgets the table and the block being loaded, close the latter, and a refused block is forgotten by every step but free |
| BrokerOwners.LostExactly | client/playstation2/sif_broker.c:431-942 | Over every run a block is out with no owner at the end if and only if it was at the start or some step lost it: what is lost stays lost |
| BrokerOwners.NothingIsLostExactly | client/playstation2/sif_broker.c:431-942 | From power-on every block that is out has an owner if and only if no step of the run loses one |
| BrokerOwners.SessionEndLosesExactly | client/playstation2/sif_broker.c:485-542 | Of the blocks it owned close loses exactly those the IOP refuses and the one being loaded; an open without close frees nothing and keeps exactly the queued one |
| SifBroker.SifBroker.PendingFreePush | client/playstation2/sif_broker.c:162-167 | Appends to the deferred queue |
| SifBroker.SifBroker.PendingFreeDrain | client/playstation2/sif_broker.c:169-181 | Frees and empties the deferred queue |
| SifBroker.SifBroker.DoOpen | client/playstation2/sif_broker.c:501-510 | Open resets the session |
| SifBroker.SifBroker.DoClose | client/playstation2/sif_broker.c:512-542 | Close frees the table and the queue and resets the session |
| SifBroker.SifBroker.DoTransfer | client/playstation2/sif_broker.c:395-429 | Memory transfers: the checks in order, then the transfer's own outcome |
| SifBroker.SifBroker.DoAlloc | client/playstation2/sif_broker.c:431-457 | The whole new state and the code of an allocation |
| SifBroker.SifBroker.DoFree | client/playstation2/sif_broker.c:459-481 | The whole new state and the code of a free |
| SifBroker.SifBroker.DoBind | client/playstation2/sif_broker.c:588-639 | The whole new state and the code of a bind |
| SifBroker.SifBroker.DoCall | client/playstation2/sif_broker.c:641-713 | The whole new state and the code of a call |
| SifBroker.SifBroker.DoLoadBuffer | client/playstation2/sif_broker.c:715-833 | The whole new state and the code of a module load from a buffer |
| SifBroker.SifBroker.DoLoadPath | client/playstation2/sif_broker.c:844-942 | The whole new state and the code of a module load by path |
| SifBroker.SifBroker.BrokerComplete | client/playstation2/sif_broker.c:288-323 | Completion of a client by operation, as `BrokerReplies` reads it |
| SifBroker.SifBroker.Isr | client/playstation2/sif_broker.c:344-376 | The handler's effect on an RPC_END packet |
| SmapRuns.PumpKeeps | client/playstation2/iop/smap_irx.c:1822-1875 | The frame pump sends a BUSY slot's own bytes or drops them, and accepts nothing |
| SmapRuns.TurnSendsExactly | client/playstation2/iop/smap_irx.c:1822-1875 | A BUSY slot's turn frees it; its frame goes out whole exactly if the turn is not stalled and the frame fits the wire |
| SmapRuns.CheckMeans | client/playstation2/iop/smap_irx.c:1489-1526 | The IOP's code for an entry says which check fails first |
| SmapRuns.ScanFindsTheFirst | client/playstation2/iop_smap.c:418-437 | The scan gives the first slot from the cursor on, going round, that is neither claimed nor BUSY, and gives up only when there is none |
| SmapRuns.FlushTakesEachOnce | client/playstation2/iop_smap.c:373-416 | However the RPCs fail, a flush has the IOP accept some of the staged frames, none twice, and touches no frame bytes |
| SmapRuns.LostReplySpends | client/playstation2/iop/smap_irx.c:1528-1599 | A batch that runs but whose reply is lost has moved the IOP past every entry |
| SmapRuns.SinglesOfSpent | client/playstation2/iop_smap.c:402-415 | Resubmitting such entries is refused and changes nothing but the pump's progress |
| SmapRuns.StoringKeeps | client/playstation2/iop_smap.c:465-494 | Bytes go only into a slot that is FREE and unstaged, so no staged or accepted frame changes |
| SmapRuns.StagingKeeps | client/playstation2/iop_smap.c:496-507 | Staging keeps the claimed mask equal to the set of staged, distinct slots |
| SmapRuns.RunKeeps | client/playstation2/iop_smap.c:350-515 | Every run of sends, flushes and pump turns keeps those facts |
| SmapRuns.WireIsHonest | client/playstation2/iop_smap.c:350-515 | From initialisation: what reaches the wire is accepted frames, byte for byte, each at most once |
| SmapDelivery.AcceptedFramesGoOut | client/playstation2/iop_smap.c:350-515 | Over every run without stalls and with frames that fit the wire, whatever calls get lost: an accepted frame has gone out or waits in a BUSY slot, and after one more round of the pump it is on the wire, byte for byte |
| SmapDelivery.SendMeans | client/playstation2/iop_smap.c:443-515 | What each code of a send says about frame, queue and slots; 0 means exactly that the frame is staged as the newest |
| SmapDelivery.SinglesReportTheFirst | client/playstation2/iop_smap.c:402-415 | The fallback returns 0 if and only if every call did, otherwise the first failure |
| SmapDelivery.BatchMeans | client/playstation2/iop/smap_irx.c:1528-1599 | A batch is refused for its size, then for its first bad entry; otherwise all of it is taken |
| SmapDelivery.CallMeans | client/playstation2/iop_smap.c:350-395 | A failed call shows as -5, whether or not the IOP ran it; an answered one shows the IOP's code |
| SmapSync.BatchIsTaken | client/playstation2/iop/smap_irx.c:1528-1599 | A batch whose request arrives is accepted whole, whatever becomes of the reply |
| SmapSync.AnsweredSendCodes | client/playstation2/iop_smap.c:443-515 | When every call is answered a send reports only its own refusals |
| SmapSync.EntryIsTakenExactly | client/playstation2/iop_smap.c:373-416 | A flush loses a frame if and only if both the batch request and the frame's own request are lost |
| SmapSync.FlushLosesNothingExactly | client/playstation2/iop_smap.c:373-416 | A flush keeps all frames accepted in order if and only if its batch request or every single request arrives |
| SmapSync.NothingIsLostExactly | client/playstation2/iop_smap.c:350-515 | Over every run: all frames are accepted once and in order if and only if no flush loses both its batch request and the request of one of its entries; the two sides' numbers then differ exactly on claimed slots |
| SmapSync.LostCallLosesTheSlot | client/playstation2/iop_smap.c:402-416 | A frame lost in this way leaves its slot's numbers out of step |
| SmapSync.LostSlotStaysLost | client/playstation2/iop/smap_irx.c:1489-1599 | A slot out of step accepts nothing as long as the steps are too few to bring its number round the 32-bit circle |
| SmapClient.SmapClient.HandleSubmit | client/playstation2/iop/smap_irx.c:1489-1526 | The IOP's checks of one entry in order, and its acceptance |
| SmapClient.SmapClient.HandleSubmitBatch | client/playstation2/iop/smap_irx.c:1528-1599 | All or nothing: one pass of checks, one pass of acceptances |
| SmapClient.SmapClient.SubmitTxSingle | client/playstation2/iop_smap.c:350-371 | Returns 0 only if the IOP accepted the entry and its answer came back; any other answered call has changed nothing but the pump's progress; a failed call returns -5, whether or not the IOP ran it |
| SmapClient.SmapClient.SubmitTxBatch | client/playstation2/iop_smap.c:383-395 | The batch call of a flush, which may fail before or after the IOP ran it |
| SmapClient.SmapClient.Resubmit | client/playstation2/iop_smap.c:402-415 | The fallback loop submits every entry and reports the first failure |
| SmapClient.SmapClient.FlushTx | client/playstation2/iop_smap.c:373-416 | A flush as specified: the queue and claims are empty afterwards on every path |
| SmapClient.SmapClient.TxScanFreeSlot | client/playstation2/iop_smap.c:418-437 | Finds the first FREE, unclaimed slot from the cursor on |
| SmapClient.SmapClient.SendFrame | client/playstation2/iop_smap.c:443-515 | A send as specified on every path: refusals, flush for room, bounded wait, staging, full-queue flush |
| Sh4Trampoline.ListingIsTheCode | host/src/firmware_update.c:127-208 | The trampoline bytes decode to the listed SH-4 instructions |
| Sh4Trampoline.Prologue | host/src/firmware_update.c:127-208 | The first five instructions reach the copy loop with the patched size as counter |
| Sh4Trampoline.LoopRound | host/src/firmware_update.c:127-208 | One round of the loop copies one byte and counts down |
| Sh4Trampoline.Tail | host/src/firmware_update.c:127-208 | After the loop: the caches are invalidated and the loader entered at its uncached address |
| Sh4Trampoline.FirmwareIsInstalled | host/src/firmware_update.c:110-208 | For sizes 1 to 0xC00B the run ends at the loader entry with the loader region equal to the firmware and nothing else above it changed |
| Sh4Trampoline.PoisonFails | host/src/firmware_update.c:110-208 | For any other size some firmware makes the run fail, if stored bytes reach instruction fetch at once |
| Sh4Trampoline.SizesThatWork | host/src/firmware_update.c:110-208 | With stores visible to instruction fetch at once, the run installs every firmware, from every register state and RAM, if and only if the size is 1 to 0xC00B |
| AllegrexTrampoline.ListingIsTheCode | host/src/firmware_update.c:626-886 | The trampoline bytes decode to the listed Allegrex instructions |
| AllegrexTrampoline.Prepare | host/src/firmware_update.c:626-679 | Interrupts are masked, the exception vectors moved and the parameters read before anything is stored |
| AllegrexTrampoline.LoopRound | host/src/firmware_update.c:723-736 | One round of the loop copies one word |
| AllegrexTrampoline.LoopRuns | host/src/firmware_update.c:707-736 | The copy loop terminates having copied the rounded size |
| AllegrexTrampoline.FlushRuns | host/src/firmware_update.c:737-754 | The cache loop terminates and changes no byte |
| AllegrexTrampoline.FirmwareIsInstalled | host/src/firmware_update.c:593-886 | For sizes 1 to 0x100000 the run ends at the loader entry with the firmware in place |
| AllegrexTrampoline.BadSizesSpin | host/src/firmware_update.c:593-886 | For size 0 or above 0x100000 the run spins for ever with RAM untouched |
| FirmwareBlob.PatchTouchesOneField | host/src/firmware_update.c:1020-1033 | Patching changes the 16-byte field of the first IP block and nothing else; a later patch replaces an earlier one |
| FirmwareBlob.FindBlock | host/src/firmware_update.c:1020-1033 | The scan finds the first complete IP block |
| FirmwareBlob.FindsTheFirstBlock | host/src/firmware_update.c:1012-1033 | A block is the text KOSLD_IP with sixteen bytes behind it, up to the very end of the firmware; the first is found if there is any |
| FirmwareBlob.PatchFirmwareIp | host/src/firmware_update.c:1020-1033 | In place: the 16-byte field of the first IP block holds the first 15 characters of the address and NULs, every other byte stays |
| FirmwareBlob.PerformUpdate | host/src/firmware_update.c:1174-1210 | The uploaded blob is the trampoline with the size in its place, followed by the firmware, whose first IP block holds the address if asked |
| FirmwareBlob.DreamcastUpdateInstalls | host/src/firmware_update.c:1174-1210 | End to end on the Dreamcast: running the assembled blob installs the patched firmware, and the address is in the installed loader's IP block |
| FirmwareBlob.PspUpdateInstalls | host/src/firmware_update.c:1174-1210 | End to end on the PSP: it installs the patched firmware, address included, for the sizes the trampoline takes and spins otherwise |
| Calendar.ConvertTimestamp | client/xbox/rtc.c:67-102 | Every 32-bit timestamp becomes a valid Gregorian date and time that stands for the same second |
| Calendar.MakeTimestamp | client/xbox/rtc.c:132-150 | The fields' second number in 32-bit arithmetic, for any fields |
| Calendar.OneDatePerTimestamp | client/xbox/rtc.c:67-102 | Two valid dates that stand for the same second are the same date |
| Calendar.RoundTrip | client/xbox/rtc.c:62-150 | make_timestamp undoes convert_timestamp |
| Calendar.RoundTripOfFields | client/xbox/rtc.c:62-150 | convert_timestamp undoes make_timestamp up to the weekday given |
| Calendar.LeapDaysInClosedForm | client/xbox/rtc.c:62-65 | The year loop's days are the closed form with its three leap-year quotients |
| Calendar.AgreesWithPosix | client/xbox/rtc.c:132-150 | From 1970 on the result is Seconds Since the Epoch, section 4.16 of the Base Definitions of IEEE Std 1003.1-2017 |
| Calendar.WeekdayIsRight | client/xbox/rtc.c:67-102 | The stored weekday is the Gregorian one |
| XboxClock.ValueRoundTrip | client/xbox/rtc.c:119-130 | BCD and binary encodings of 0 to 99 are read back |
| XboxClock.HourRoundTrip | client/xbox/rtc.c:203-214 | Hours are read back in all four modes |
| XboxClock.LoadUndoesStore | client/xbox/rtc.c:163-323 | The registers written by set are decoded to the same fields, in all four modes |
| XboxClock.StoredShows | client/xbox/rtc.c:200-218 | Each register set writes shows its field: binary or BCD by bit 2 of register B, 24 or 12 hours by bit 1, afternoon by bit 7 of the hour |
| XboxClock.LoadedIsShown | client/xbox/rtc.c:266-300 | Whatever date the registers show is the date read |
| XboxClock.TimesOutExactly | client/xbox/rtc.c:184-193 | The wait is given up exactly when the bit stays set for the whole budget or the time limit passes at a poll |
| XboxClock.Clock.WaitForUpdate | client/xbox/rtc.c:184-193 | Gives up exactly when the update bit stays set for the whole polling budget |
| XboxClock.Clock.SetRtc | client/xbox/rtc.c:163-234 | On every path the index shadow is restored and the lock released; the status tells the path; only success changes registers, which then show the date in the chip's own format, register B unchanged |
| XboxClock.Clock.GetRtc | client/xbox/rtc.c:241-323 | The same for reading: for whatever date the registers show, it succeeds exactly if nothing stood in the way and the date is plausible, with that date's timestamp |
| XboxClock.Clock.SetThenGet | client/xbox/rtc.c:163-323 | A clock that does not tick tells the time it was set to |
| FlashCrc.WideShiftIsShift | client/dreamcast/target.c:160-172 | Bits above bit 15 of the unmasked accumulator never come back down |
| FlashCrc.FlashromCrc | client/dreamcast/target.c:160-172 | The loop computes the 16-bit CRC with polynomial 0x1021, initial value 0xFFFF and final complement, of the first 62 bytes |
| FlashCrc.CheckValue | client/dreamcast/target.c:160-172 | The CRC of the digits 1 to 9 is the published check value 0xD64E |
| FlashCrc.SmallChangesAreDetected | client/dreamcast/target.c:160-172 | A change confined to one byte or two neighbouring bytes always changes the checksum |
| FlashLog.NewBlockIsValid | client/dreamcast/target.c:237-246 | The rewritten block has a valid checksum, the new date and every other data byte of the old |
| FlashLog.SyscfgMeans | client/dreamcast/target.c:219-226 | A syscfg block begins with the number 5 and ends with the checksum of its first 62 bytes, both little-endian |
| FlashLog.UnusedMeans | client/dreamcast/target.c:193-215 | Which partitions have a bitmap, and which bit of the last 64 bytes says that a slot is free |
| FlashLog.ClaimedByte | client/dreamcast/target.c:260-265 | Claiming a slot clears that bit and touches no other byte |
| FlashLog.ClaimedBits | client/dreamcast/target.c:260-265 | Claiming a slot changes that slot's bit and no other |
| FlashLog.StopIsHarmless | client/dreamcast/target.c:260-270 | A stop between the two writes leaves the old block the one found, if and only if the claim does not change whether the bitmap, read as a slot, looks like a block, which it cannot while that slot is free or once eight slots are used |
| FlashLog.UpdateAppends | client/dreamcast/target.c:189-270 | A completed update below the bitmap makes exactly its slot used and leaves every other block as it was; the slot holds the old block with the new date, valid; the high-to-low scan finds it if it is above the old block and the old block otherwise |
| FlashLog.NewBlockIsFoundExactly | client/dreamcast/target.c:189-270 | For any first free slot, whatever is used above it, the update is the block found if and only if the slot lies below the bitmap (or can be read back from under it) and nothing valid lies above it; in a partition of ten blocks or more the last two slots always lose it |
| FlashLog.BitmapSlot | client/dreamcast/target.c:248-270 | In the slot that is the bitmap's own block: which block is found afterwards |
| FlashLog.SlotPastTheEnd | client/dreamcast/target.c:248-270 | In the slot past the partition, whose write fails: only the slot's bit changes and the old block stays the one found |
| FlashLog.Partition.FindNewest | client/dreamcast/target.c:213-235 | Finds the newest valid block |
| FlashLog.Partition.FindFree | client/dreamcast/target.c:248-258 | Finds the first unused slot |
| FlashLog.Partition.UpdateSyscfg | client/dreamcast/target.c:189-270 | The whole new partition, for every BIOS outcome and for a stop between the writes |
| PacketCopy.XtrctIsTheWordBetween | client/dreamcast/memfuncs.c:346-490 | xtrct of two neighbouring words is the word half way between them |
| PacketCopy.Extract | client/dreamcast/memfuncs.c:346-490 | One pass of the pipelined loads gives the eight shifted words and carries the last word on |
| PacketCopy.MemToPacket | client/dreamcast/memfuncs.c:346-490 | Writes exactly 32 * ceil(n / 32) bytes, each the source byte two places on |
| PacketCopy.CopyUnits | client/dreamcast/memfuncs.c:34-183 | Each width's loop is a byte copy, on pointers aligned for it |
| PacketCopy.Copy32 | client/dreamcast/memfuncs.c:185-225 | Four loads and four descending stores per burst are a byte copy |
| PacketCopy.CopyStep | client/dreamcast/memfuncs.c:295-342 | Each turn copies at least one byte with the widest loop both pointers and the length allow |
| PacketCopy.AlignedMemcpy | client/dreamcast/memfuncs.c:295-342 | Equals a byte copy on disjoint buffers, and terminates; equal pointers change nothing |
| SysconPackets.RequestsAreWellFormed | client/psp/syscon.c:334-348 | A request has a fitting length byte and its bytes sum to 0xFF |
| SysconPackets.WordsCarryThePacket | client/psp/syscon.c:216-220 | The FIFO words carry the packet's bytes and a filler after an odd one |
| SysconPackets.WordsAreBigEndian | client/psp/syscon.c:216-220 | Each FIFO word holds two packet bytes, the first one high |
| SysconPackets.ValidMeansSumsUp | client/psp/syscon.c:272-281 | A reply passes exactly when its counted bytes sum to 0xFF |
| SysconPackets.OneByteIsNoticed | client/psp/syscon.c:272-281 | Any change of one byte of a valid reply other than the length byte makes it invalid |
| SysconPackets.LengthChangeUnnoticedExactly | client/psp/syscon.c:272-281 | A change of the length byte of a valid reply goes unnoticed if and only if the new length is in range and received, and the change plus the bytes added or dropped come to a multiple of 256 |
| SysconPackets.LengthByteIsNotProtected | client/psp/syscon.c:272-281 | A concrete reply of that kind |
| Syscon.CommandResult | client/psp/syscon.c:350-372 | The internal retry code never comes out |
| Syscon.CommandCounts | client/psp/syscon.c:323-372 | The reply counter grows by exactly the valid replies of the command |
| Syscon.CommandSends | client/psp/syscon.c:323-372 | The request goes out at most once, then at most five command-only polls, all well formed |
| Syscon.LastReplyDecides | client/psp/syscon.c:290-372 | A command goes on as long as the reply asks for it, at most six exchanges; the last exchange decides the result, and how |
| Syscon.Driver.Exchange | client/psp/syscon.c:162-305 | One exchange: exactly these words out, exactly if the line was quiet; the reply on file changes exactly on a clean and valid one |
| Syscon.Driver.Cmd | client/psp/syscon.c:323-372 | The whole new state and the result of a command |
| Syscon.Driver.PollStatus | client/psp/syscon.c:443-458 | Succeeds exactly when a valid reply arrived during the call, with its status byte; otherwise it returns the command's code, or -1 for none |
| Syscon.Driver.BaryonVersion | client/psp/syscon.c:460-485 | Succeeds exactly if the command did, a valid reply arrived during the call and its payload has one to four bytes; the version is that payload, little-endian |
| Syscon.FirstByteIsLowest | client/psp/syscon.c:460-485 | A little-endian number is its first byte and 256 times the rest |
| ConsoleLines.PrintedFrameParses | host/src/console.c:207-230 | A frame printed as three spaces, eight hexadecimal digits and anything more is read back |
| ConsoleLines.ParseTraceAddr | host/src/console.c:207-230 | Accepts exactly lines of three spaces, eight hexadecimal digits and at least one more byte, with their value |
| ConsoleLines.AnnotationIsWhole | host/src/console.c:267-281 | The 512-byte buffer loses nothing if and only if trimmed line and note together have at most 507 bytes |
| ConsoleLines.BuildAnnotation | host/src/console.c:267-281 | Three bounded appends build the trimmed line, three spaces, the note and a newline, cut at 511 bytes |
| ConsoleLines.HexDigitMeans | host/src/console.c:215-223 | The hexadecimal digits in either case, and their values |
| ConsoleLines.LineMeans | host/src/console.c:245-288 | What a line prints and which banners open and close a trace, written out on the text |
| ConsoleLines.StreamIsConserved | host/src/console.c:335-407 | For any split into calls, output and held bytes account for the input in order, without loss or repetition; without annotations they equal it |
| ConsoleLines.AnnotatedLine | host/src/console.c:245-288 | A line is annotated only inside a trace and when its address decodes; with at most 252 trimmed bytes it appears as itself without CR and LF, one note and one newline |
| ConsoleLines.SplittingIsInvisible | host/src/console.c:360-404 | With lines shorter than 256 bytes, two line-buffered calls do what one call does |
| ConsoleLines.TraceOutputIgnoresCuts | host/src/console.c:335-407 | Inside a trace, two ways of cutting a stream of such lines end in the same state and output, as long as no line closes the trace |
| ConsoleLines.BannerIsSeenExactly | host/src/console.c:351-404 | Outside a trace, a start banner behind complete lines in one call opens the trace if and only if the call starts with a dash |
| ConsoleLines.BannerInsideACallIsMissed | host/src/console.c:351-358 | Behind any text that does not start with a dash it is missed, in a call of its own it is seen |
| ConsoleLines.LineWriter.ConsoleWriteLine | host/src/console.c:245-288 | Prints the line, or inside a trace a frame with its decoded name; banners switch the trace |
| ConsoleLines.LineWriter.ConsoleWrite | host/src/console.c:335-407 | A call as specified on every path; without decoder, or outside a trace with nothing held and no leading dash, the data goes out as it is |

## Left out

Environments and assumptions:

- Caches: writebacks, invalidations and prefetches have no effect in these models; DMA reads what the EE last wrote.
- SIF1: a transfer's source bytes are read when it is submitted, as the compiler copies them; the DMA controller's other channels and bus errors are not modelled.
- SIF broker: each entry point is atomic with respect to the interrupt handler. `pending_free_drain` is not bracketed by the interrupt mask in the source, so this is an assumption about it.
- SIF broker: a failed send means the IOP never saw the request. Otherwise its reply would match whatever request reuses the client struct.
- SIF broker: the IOP heap hands out only blocks that are not out, and refuses frees as it likes; the guest does not reinitialise the client struct of a request still in a slot.
- SMAP: a lost call is either lost before the IOP handler runs or after it; the handler never runs late. The EE's view of slot states is the IOP's state.
- SMAP: a call that fails on the EE is one of those two; the IOP handler and the frame pump take turns.
- SMAP: a null frame and a ring whose layout was never read are refused at once and not modelled.
- Duplicate requests: the network delivers only what was sent, and forgets a packet before the 32-bit numbers come round; the guest's host version is at least 3.0.0, so the echoed trailer is checked.
- Xbox relocation: one level of page table, with the image's pages present; page faults, the page directory and accessed or dirty bits are not modelled.
- Firmware trampolines: no interrupt or exception arrives during the copy, the host is little-endian, and the upload put the whole blob in RAM.
- Xbox clock: registers keep their values unless written, and the time stamp counter is a nondeterministic limit on the polls.
- Flashrom: a BIOS write clears the requested bits or nothing; unreadable blocks are a fixed set.
- PSP controller: each exchange sees arbitrary but scripted hardware; delays, GPIO register values and trace events are not modelled.
- Console output: writes are full-length and calls shorter than 2^31 bytes; the symbol decoder is a fixed function from addresses to text without NULs.

Stated for less than everything the code can be asked:

- SifFifo.ReportIsTrue: for transfers younger than 2^31 - 1 ids, because the code reuses ids; `SifRing.ReusedIdIsMisreported` shows that the bound is exact, and `SifRing.PolledStatusIsTrueExactly` is the condition for every transfer.
- SifFifo.ReportIsTrueExactly: about an answer that looks at the running transfer first. With equal ids the code answers by slot number instead; `SifRing.PolledStatusIsTrueExactly` is about that.
- SifRing.PolledStatusIsTrue: the bound of `SifFifo.ReportIsTrue`; `SifRing.PolledStatusIsTrueExactly` has none.
- BrokerRuns.OpenLeaksTheTable: the table's share of what open loses; `BrokerOwners.SessionEndLosesExactly` has all of it.
- BrokerRuns.CloseLeaksStaging: likewise for close.
- SifTransfers.ChunksAreOneCopy: needs a write that stays inside both address spaces and no chunk addressed to the command buffer, which the compiler would pad to 128 bytes.
- DedupSession.SessionIsSafe: rests on the delay bound above; without it `DedupArrivals.SpreadIdsRepeat` repeats a dispatch.
- FlashLog.Partition.FindNewest: slot num_blocks - 1 is never read. Its block lies past the partition, and a BIOS access there is modelled as a failed call; the code has no such guard, and what the BIOS does is not known here.
- FlashLog.Partition.UpdateSyscfg: writing that slot is a failed call for the same reason, so damage to the next partition is not modelled.
- FlashLog.UpdateAppends: while the bitmap's own slot is free or eight slots are used; otherwise the claim may make the bitmap look like a block, and `FlashLog.NewBlockIsFoundExactly` is the exact statement.
- Sh4Trampoline.SizesThatWork: the model has no caches; that larger sizes fail relies on stored bytes reaching instruction fetch at once.
- Sh4Trampoline.PoisonFails: likewise.
- XboxRelocation.ImageSurvives: bytes after the stack top are not copied by the code and read as whatever the identity frames held.
- PacketCopy.MemToPacket: for lengths whose sum with 31 does not wrap; the pointer updates are byte offsets into arrays, and source and destination are separate.
- PacketCopy.AlignedMemcpy: for equal or disjoint buffers inside one 512 MB segment, through any cached or uncached alias.

Parts of these files without a model:

- `ee_sif.c`: receive side, RPC client, `ee_sif_iop_read`, the GET_OTHER_DATA poll, IOP reset and the module-loader patch.
- `sif_broker.c`: command handlers, SREG access, cache maintenance of receive buffers, packet layouts beyond the fields used for matching.
- `iop_smap.c`: receive ring and its release calls, status, clock and power calls.
- `console.c`: the system calls behind the dispatch, GDB, exception dumps, the serial console, the decoder process and its cache.
- `firmware_update.c`: the PowerPC, R5900 and i386 trampolines, version policy, reconnecting, file loading.
- Guest network code: Ethernet, IP and UDP headers; the retry timer, which only decides when a repeat is sent.
- `memfuncs.c`: comparisons, memset and cache purging. `rtc.c`: interrupt masking and the spin lock's instructions.
- `client/xbox/target.c`, `client/dreamcast/target.c`: everything but the functions named above.
- `gdb.c`, `discover.c`, `config.c`, `main.c`, upload and download, LZO helpers, video, fonts and other device drivers.
