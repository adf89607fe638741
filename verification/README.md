# Exo-OS verification model

A Dafny 4.11 model of the parts of Exo-OS whose correctness is hardest to see from the code, with
proofs. `dafny verify dfyconfig.toml` checks everything.

| modules | part of Exo-OS |
|---|---|
| `EventQueue` | the lock-free kernel to device_server notification ring, as a transition system at the grain of single atomic operations |
| `FreezeProtocol`, `FreezeSoundness`, `SlotMap`, `Handoff` | ExoPhoenix isolation: freezing every core, counting the acks, the core-to-slot map, and the retry policy of the reconstruction |
| `DmaTables`, `Dma`, `Claims`, `Drivers` | driver resources: pinned pages, DMA mappings and allocations, exclusive physical claims, MSI leases, MMIO windows, and driver exit |
| `StackImage`, `InitialStack` | the initial stack of a process, as an image and as writes into eight separate pages |
| `FilePage` | demand paging of ELF files and the registry of file ranges behind it |
| `Relocation`, `RelocationWords` | loading and relocating a position-independent kernel image, and what relocation does in terms of the words of the image |
| `PageTables` | the boot loader's page tables under the hardware walk |
| `IntegrityRoot` | the hash root the build script computes and the kernel's check of it |
| `ServiceOrder` | the topological sort of the service table |
| `CivilDate` | the build date from seconds since 1970 |
| `Wrappers`, `Words`, `Bytes`, `Seqs` | options and results, machine words, byte strings, filtering of tables |

Code that only computes is modelled by functions. Code that changes things in place is modelled by
classes, arrays and loops whose contracts name a function of the old state; the theorems are about
those functions. Concurrent code is a state machine whose steps are single atomic actions, and its
theorems quantify over every run. Hardware, clocks, randomness, page tables, the buddy allocator
and the IOVA allocator are outside: their answers are arguments. Any IOVA answer is accepted; that
the mapped pages are exactly those with an owner, and have just one, is claimed while no answer was a
page that was mapped already.

Eleven promises turned out not to hold on all inputs. Each is stated with its exact condition:

- `FREEZE_ACK_ALL` can be published while a core still runs, because the ack scan also accepts the
  acknowledgement of a TLB flush (`FreezeSoundness.AckAllCanLieExactlyWhen`; in the second round
  after boot, `FreezeSoundness.SecondRoundLies`).
- For the same reason hard isolation can pass over a core that still runs
  (`FreezeSoundness.HardIsolationMissesExactlyWhen`).
- A core that does not poll the flag between two rounds stays in the freeze loop of the first; the
  second cannot reach `FREEZE_ACK_ALL`, and hard isolation resets the core
  (`FreezeSoundness.AckAllPossibleExactlyWhen`, `FreezeSoundness.SecondRoundSticks`).
- The freeze handler can ack with the registers of a thread lost, when the thread got its FPU
  without a save area (`FreezeProtocol.AckMeansFrozen`, `FreezeProtocol.MissingAreaLosesRegisters`).
- The retry loop of the reconstruction can run out without a verdict, when the 32-bit failure count
  wraps (`Handoff.FallsThroughExactlyWhen`, reached from boot by `Handoff.WrapIsReached`).
- Core 255 of a full machine has no slot, because its slot number means "unassigned"
  (`SlotMap.EveryCpuHasItsSlotExactlyWhen`, `SlotMap.LastCoreHasNoSlot`).
- A DMA request within one page of 2^64 is granted with no page at all
  (`DmaTables.PageCountIsCeiling`, `Dma.WrappedRequestMapsNothing`).
- A DMA buffer that starts inside a page need not be covered by the pages mapped for it
  (`Dma.CoveredExactlyWhen`, `Dma.UnalignedBufferIsCut`).
- A DMA allocation whose IOVA cannot be unmapped is forgotten with its block, which is never given
  back (`Dma.Manager.DmaFree`).
- Memory of a segment past its file part need not read zero (`FilePage.BssIsZeroExactlyWhen`,
  `FilePage.BssCanShowTheNextSegment`).
- An image whose root the build script stored need not be accepted by the kernel
  (`IntegrityRoot.AcceptedExactlyWhen`, `IntegrityRoot.NoEntryIsRefused`).

Three places where code and documentation disagree follow the code: the boot loader documents a
kernel window at 0xFFFF_FFFF_8000_0000 but maps one at 0xFFFF_FF80_0000_0000
(`PageTables.KernelBaseIsNotMapped`); base-relative relocations do not subtract the link base
(`Relocation.RelativePointsIntoImageExactlyWhen`, `Relocation.HighLinkPointsAway`); the date
conversion is documented for 1970 to 2099 and is right for every epoch
(`CivilDate.EpochDateIsTheCalendar`).

## Model

| member | source | states |
|---|---|---|
| `EventQueue.EveryRunIsSafe` | kernel/src/drivers/device_server_ipc.rs:101-186 | in every state of every interleaving of any number of pushers, poppers and drainers with `init`, below the counter wrap: the popper of tail ticket t gets the event of head ticket t, at most one thread is between its CAS and its seq store on a slot, when nobody is in between the popped events are a prefix of the pushed ones and the ring holds the rest in order, a push compares its slot as behind exactly while the ticket one lap back is unreleased, every rejection is counted once; and of an observer who records calls and answers: every push called is queued with its own argument, was refused or is still trying, a push called on an initialised queue was refused only while the ticket one lap back was not handed back, every pop took a ticket, came back empty or is still looking, and came back empty only with nothing queued or the event at the tail unpublished |
| `EventQueue.RunKeepsInv` | kernel/src/drivers/device_server_ipc.rs:101-182 | the slot and thread invariant behind that theorem holds along every such run |
| `EventQueue.PushCasWins` | kernel/src/drivers/device_server_ipc.rs:118-135 | a winning CAS on head finds its slot free for exactly that ticket, less than one lap ahead of tail |
| `EventQueue.PopCasWins` | kernel/src/drivers/device_server_ipc.rs:151-170 | a winning CAS on tail finds its slot published for exactly that ticket |
| `EventQueue.InvIsExclusive` | kernel/src/drivers/device_server_ipc.rs:118-178 | two threads never access the same payload cell |
| `EventQueue.InvIsFifo` | kernel/src/drivers/device_server_ipc.rs:111-182 | with no operation in flight nothing is lost, duplicated or reordered |
| `EventQueue.LapBehind` | kernel/src/drivers/device_server_ipc.rs:118-148 | the slot of a push is behind exactly when the ticket one lap back has not been handed back |
| `EventQueue.EmptyOnlyAtTail` | kernel/src/drivers/device_server_ipc.rs:151-182 | a pop that finds its slot behind is at the tail, and the queue is empty or the event there is not yet published |
| `EventQueue.HistoryOnlyGrows` | kernel/src/drivers/device_server_ipc.rs:111-182 | no step changes what was pushed or handed back, and no ticket is handed back twice |
| `EventQueue.RunKeepsLog` | kernel/src/drivers/device_server_ipc.rs:111-186 | the observer's part of that theorem, along every such run |
| `EventQueue.SoloPush` | kernel/src/drivers/device_server_ipc.rs:111-148 | from any reachable state of an initialised queue, a push left alone comes back: one event more at the head, published in its slot, unless the ticket one lap back is not handed back, and then only the drop count changes |
| `EventQueue.SoloPop` | kernel/src/drivers/device_server_ipc.rs:151-182 | a pop left alone hands back the event of the tail ticket and frees its slot for the next lap, or changes nothing when the queue is empty or the event at the tail is unpublished |
| `EventQueue.InitCompletes` | kernel/src/drivers/device_server_ipc.rs:101-109 | left alone, `init` ends with the queue initialised and empty and slot i at sequence number i |
| `EventQueue.DrainTakesAll` | kernel/src/drivers/device_server_ipc.rs:184-186 | a drain takes the whole drop count in one step and changes nothing else |
| `FreezeProtocol.SaveFpu` | kernel/src/exophoenix/interrupts.rs:64-88 | the save leaves the thread's saved image current if and only if the FPU state was coherent: already saved, or live with a save area; no thread stays loaded, and TS is set exactly if it was or a loaded thread was there |
| `FreezeProtocol.RunKeepsInv` | kernel/src/exophoenix/handoff.rs:233-336 | the protocol invariant holds along every run of the controller and any number of cores, with any FPU states and with IPIs left over from earlier rounds |
| `FreezeProtocol.AckMeansFrozen` | kernel/src/exophoenix/handoff.rs:525-529 | after a slot was cleared, FREEZE_ACK_DONE in it means its core is past the FPU save and in the freeze loop, with the registers of its thread in memory if and only if it entered the handler with a coherent FPU state |
| `FreezeProtocol.FrozenImage` | kernel/src/exophoenix/interrupts.rs:64-120 | the same FPU condition for every frozen core of every run, acked or not |
| `FreezeProtocol.EntryIsRecorded` | kernel/src/exophoenix/interrupts.rs:64-88 | the FPU state it speaks of is the one at the moment the core took the freeze IPI |
| `FreezeProtocol.MissingAreaLosesRegisters` | kernel/src/scheduler/fpu/lazy.rs:125-133 | a run from boot, with no IPI pending, at the end of which a core acked and is frozen, and the registers of its thread, which had no save area, are lost |
| `FreezeProtocol.FreezeHolds` | kernel/src/exophoenix/interrupts.rs:90-120 | no single step takes a core out of the freeze loop while the flag is FREEZE_REQ or FREEZE_ACK_ALL and no INIT is sent; `FreezeProtocol.LeavesAtFirstPoll` is its counterpart for B_ACTIVE and NORMAL |
| `FreezeProtocol.FrozenAlong` | kernel/src/exophoenix/interrupts.rs:90-120 | so a frozen core stays frozen along every run of that kind |
| `FreezeProtocol.LeavesAtFirstPoll` | kernel/src/exophoenix/interrupts.rs:107-120 | along every run with the flag at B_ACTIVE or NORMAL, the first poll of a frozen core takes it out of the loop |
| `FreezeProtocol.EveryoneGetsOut` | kernel/src/exophoenix/interrupts.rs:90-120 | from every state with the flag at B_ACTIVE or NORMAL, some steps of the cores alone bring every target that was not reset back to its thread |
| `FreezeProtocol.RoundEndsReleased` | kernel/src/exophoenix/handoff.rs:477-509 | a round that restored, gave up or ended in hard isolation can always be completed with the flag NORMAL and every target that was not reset back with its thread |
| `FreezeProtocol.FallThroughReleasesNoOne` | kernel/src/exophoenix/handoff.rs:477-509 | a reconstruction that ends without a verdict leaves the flag at FREEZE_ACK_ALL and every core as it is |
| `FreezeProtocol.AckAllMeansAllAcked` | kernel/src/exophoenix/handoff.rs:317-336 | FREEZE_ACK_ALL is published only after the drain was confirmed and every target acked since its own reset |
| `FreezeProtocol.HardIsolationCoversTargets` | kernel/src/exophoenix/handoff.rs:447-459 | when hard isolation is about to release the flag, every target was halted, is frozen, or answered a TLB flush since its reset |
| `FreezeSoundness.QuietRoundIsSound` | kernel/src/exophoenix/handoff.rs:249-336 | with no TLB-flush IPI left to answer at the reset, in every run of the round, FREEZE_ACK_ALL means that all targets are frozen at that moment |
| `FreezeSoundness.QuietHardIsolationStopsAll` | kernel/src/exophoenix/handoff.rs:545-559 | and hard isolation gets to its release of the flag only with every target frozen or halted |
| `FreezeSoundness.StuckRoundNeverAcks` | kernel/src/exophoenix/handoff.rs:249-336 | in every run of a round with a target left in the freeze loop or halted, FREEZE_ACK_ALL is never published, and when hard isolation is about to release the flag that target is halted |
| `FreezeSoundness.NoResetBeforeTimeout` | kernel/src/exophoenix/handoff.rs:317-336 | in every run of a round without a timeout, the controller waits or publishes FREEZE_ACK_ALL, and never turns to hard isolation |
| `FreezeSoundness.AckAllPossibleExactlyWhen` | kernel/src/exophoenix/handoff.rs:249-336 | at the start of a round, some run publishes FREEZE_ACK_ALL if and only if no target is left in the freeze loop or halted |
| `FreezeSoundness.UnquietRoundLies` | kernel/src/exophoenix/handoff.rs:249-272 | if every target can ack and one still has a TLB flush to answer, some run publishes FREEZE_ACK_ALL while that core runs |
| `FreezeSoundness.AckAllCanLieExactlyWhen` | kernel/src/exophoenix/handoff.rs:249-272 | at the start of a round, such a run exists if and only if some target has a TLB flush to answer and every target can ack |
| `FreezeSoundness.UnquietTargetIsMissed` | kernel/src/exophoenix/handoff.rs:447-459 | a target that still has a TLB flush to answer can be passed over by the INIT sweep and run on |
| `FreezeSoundness.HardIsolationMissesExactlyWhen` | kernel/src/exophoenix/handoff.rs:545-559 | at the start of a round, some run ends hard isolation with a target neither frozen nor halted if and only if some target has a TLB flush to answer |
| `FreezeSoundness.SecondRoundLies` | kernel/src/exophoenix/forge.rs:663-674 | a run from boot, with no IPI pending: a sound round, whose reconstruction flushes the TLBs of the frozen core, leaves a second round in which FREEZE_ACK_ALL can lie and hard isolation can miss the core |
| `FreezeSoundness.SecondRoundSticks` | kernel/src/exophoenix/interrupts.rs:90-120 | a run from boot, with no IPI pending: a core that misses B_ACTIVE and NORMAL is left in the freeze loop, and the second round cannot publish FREEZE_ACK_ALL |
| `SlotMap.BuildApicToSlot` | kernel/src/exophoenix/stage0.rs:591-622 | every APIC id maps to the last of the first 256 MADT entries that lists it, with the boot core as fallback |
| `SlotMap.EveryCpuHasItsSlotExactlyWhen` | kernel/src/exophoenix/stage0.rs:591-622 | with distinct 8-bit ids every CPU is found under its own slot if and only if there are at most 255 |
| `SlotMap.LastCoreHasNoSlot` | kernel/src/exophoenix/stage0.rs:591-622 | with the ids 0 to 255, core 255 is not found |
| `SlotMap.SlotBelongsToItsCpu` | kernel/src/exophoenix/stage0.rs:1278-1285 | an id that resolves to a slot is the id of that slot's CPU |
| `SlotMap.TakeSlotOnce` | kernel/src/exophoenix/mod.rs:77-87 | true exactly the first time for a slot below 256; the four words hold exactly the slots taken |
| `SlotMap.TargetsAreExact` | kernel/src/exophoenix/handoff.rs:224-272 | however ids alias, the walk visits every mapped slot but the caller's exactly once, and no other |
| `SlotMap.PlainOrderFitsProtocol` | kernel/src/exophoenix/handoff.rs:224-247 | on a plain machine the walk is an order the freeze protocol can use, and it leaves out no core |
| `SlotMap.ResetFreezeAcks` | kernel/src/exophoenix/handoff.rs:233-247 | clears the ack word of every mapped slot but the caller's, and no other |
| `SlotMap.AllFreezeAcksObserved` | kernel/src/exophoenix/handoff.rs:249-272 | true exactly when every mapped slot but the caller's has acked |
| `Handoff.FallsThroughExactlyWhen` | kernel/src/exophoenix/handoff.rs:477-509 | three attempts end without a verdict if and only if the failure count is 2^32 - 1 and all fail |
| `Handoff.WrapIsReached` | kernel/src/exophoenix/handoff.rs:477-509 | among failing rounds from boot, the one after 2^32 - 3 of them falls through, and none before it |
| `Handoff.RestoresExactlyWhen` | kernel/src/exophoenix/handoff.rs:477-509 | below the wrap the core is restored exactly when the first success comes within the budget earlier failures left |
| `Handoff.VerdictInClosedForm` | kernel/src/exophoenix/handoff.rs:477-509 | every round without running it: an attempt that succeeds within the budget restores and clears the count; otherwise the round gives up with the error of the last attempt within the budget and the count is three or one more than before, except at the wrap |
| `Handoff.AfterRestoreAnySuccessCounts` | kernel/src/exophoenix/handoff.rs:477-509 | with the count cleared, a round restores if and only if one of its three attempts succeeds |
| `Handoff.RoundAfterRestore` | kernel/src/exophoenix/handoff.rs:491-509 | so the round after a restored one does, whatever failed before the restore |
| `Handoff.Controller.TryForgeReconstruct` | kernel/src/exophoenix/handoff.rs:477-509 | the verdict and the failure count in closed form, the flag values published in order and the final state of the retry loop; success clears the count, and from a cleared count it succeeds exactly when some attempt does |
| `Handoff.Controller.BeginIsolationSoft` | kernel/src/exophoenix/handoff.rs:511-543 | a round that published FREEZE_REQ ends with the flag NORMAL and the state Restore, Degraded or Certif, except exactly in the wrap case; which of the three, every flag value published in order, when it reports success, and that success clears the failure count |
| `DmaTables.PageCountIsCeiling` | kernel/src/drivers/dma.rs:556-556 | the page count is the rounded-up quotient if and only if the size is at most 2^64 - 4096 |
| `Dma.WrappedRequestMapsNothing` | kernel/src/drivers/dma.rs:545-644 | above that the request is granted at IOVA 0, whatever the pages, and its record holds no frame and no page |
| `DmaTables.SameRefsSameTable` | kernel/src/drivers/dma.rs:145-169 | a pin table that extends another and holds the same references is the same table, entry by entry |
| `DmaTables.UnmapUndoesMapExactlyWhen` | kernel/src/drivers/dma.rs:597-631 | unmapping the pages of a mapping restores the IOVA table from before if and only if none of them was in it |
| `DmaTables.MappedPage` | kernel/src/drivers/dma.rs:594-633 | page i of a mapping leads to frame i, whatever was mapped before |
| `DmaTables.ConsistentAfterMap` | kernel/src/drivers/dma.rs:635-641 | recording a granted mapping keeps reference counts equal to the uses of each frame and flags set on exactly the counted frames, whatever the IOVA; if its pages were not mapped, the mapped pages stay exactly those of a mapping or an allocation, each with one owner |
| `DmaTables.ConsistentWithout` | kernel/src/drivers/dma.rs:646-667 | giving up a record frees its pages, and no page of any other record or allocation |
| `DmaTables.MappedExactlyWhenOwned` | kernel/src/drivers/dma.rs:545-801 | under that invariant an IOVA page is mapped if and only if it belongs to a record, to an allocation, or to an allocation that was forgotten because its IOVA could not be unmapped |
| `Dma.FrameBehindPage` | kernel/src/drivers/dma.rs:559-592 | page i of a mapping is present and, when the device writes, writable with copy-on-write resolved; frame i is the frame behind it |
| `Dma.FramesFoundExactlyWhen` | kernel/src/drivers/dma.rs:559-592 | the frames of a request are found if and only if every page has known permissions and a frame and, when the device writes, has copy-on-write resolved and is writable; otherwise the error is the one of the first page that fails, by field |
| `Dma.RangeAcceptedExactlyWhen` | kernel/src/drivers/dma.rs:594-633 | the IOVA answers are accepted if and only if each is one page past the one before; the mapping starts at the first of them, and an error is that of the first answer that does not fit |
| `Dma.RequestGrantedExactlyWhen` | kernel/src/drivers/dma.rs:545-644 | a request is granted if and only if it is not empty, its pages are usable for its direction and the IOVA answers fit, with the first answer as IOVA and the frames behind its pages |
| `Dma.AnsweredExactlyWhen` | kernel/src/drivers/dma.rs:594-633 | the pages a failing request has to unmap are exactly those answered while all answers before fitted |
| `Dma.CoveredExactlyWhen` | kernel/src/drivers/dma.rs:556-560 | the pages of a request hold every byte of its buffer if and only if the offset in the first page plus the size fits in the page count |
| `Dma.UnalignedBufferIsCut` | kernel/src/drivers/dma.rs:556-560 | two bytes across a page border: one page is mapped, without the second byte |
| `Dma.AnsweredRange` | kernel/src/drivers/dma.rs:594-633 | a granted request was answered with consecutive pages, and with no other |
| `Dma.PassthroughGrantsExactlyWhen` | kernel/src/memory/dma/core/mapping.rs:178-185 | in passthrough mode, where the IOVA is the physical address, a request is granted if and only if its frames are consecutive |
| `Dma.Manager.PinFrame` | kernel/src/drivers/dma.rs:145-154 | one more reference on the frame; the PINNED flag stays set on exactly the referenced frames |
| `Dma.Manager.UnpinFrame` | kernel/src/drivers/dma.rs:156-169 | one reference less, the entry and the flag gone with the last |
| `Dma.Manager.RollbackPinned` | kernel/src/drivers/dma.rs:420-424 | releasing what was pinned leaves literally the table from before |
| `Dma.Manager.PinPages` | kernel/src/drivers/dma.rs:559-592 | pins the frames behind all pages, or reports the first page's error with the pin table unchanged; which frames and which error, by the fields of the pages, is `Dma.FramesFoundExactlyWhen` |
| `Dma.Manager.MapPinned` | kernel/src/drivers/dma.rs:594-633 | maps page i to frame i at consecutive IOVAs, or reports the first failure with every page answered so far unmapped |
| `Dma.Manager.DmaMap` | kernel/src/drivers/dma.rs:545-644 | all or nothing, for every answer of the IOVA allocator: any error leaves pins, flags and records as they were and unmaps the pages answered, which restores the IOVA table if and only if none of them was in it; success adds exactly one record with its frames and pages; pins stay exact, and the mapped pages those with an owner while answers are exclusive; granted exactly as `Dma.RequestGrantedExactlyWhen` says |
| `Dma.Manager.DmaUnmap` | kernel/src/drivers/dma.rs:646-667 | gives up the first record for the IOVA and domain with its pages and pins, or changes nothing |
| `Dma.Manager.RevokeAllMapForPid` | kernel/src/drivers/dma.rs:669-690 | removes exactly the records of the process, in place, with their pages and pins |
| `Dma.OrderForSize` | kernel/src/drivers/dma.rs:704-715 | the smallest power of two that covers the pages |
| `Dma.AllocGrantedExactlyWhen` | kernel/src/drivers/dma.rs:729-786 | an allocation is granted if and only if it is not empty, the buddy allocator, the window and the IOVA allocator answer, no allocation has that IOVA in the domain and a slot is free; otherwise the error of the first of these |
| `Dma.Manager.InsertAllocation` | kernel/src/drivers/dma.rs:363-379 | stores in the first free slot unless the allocation is already there or the table is full |
| `Dma.Manager.DmaAlloc` | kernel/src/drivers/dma.rs:729-786 | answers with the error of the first step that fails, and then the block goes back, no slot changes and the range answered is unmapped, which restores the IOVA table if and only if none of its pages was in it; if none fails it adds one record of the smallest covering order and maps every page of it, at consecutive IOVAs |
| `Dma.Manager.DmaFree` | kernel/src/drivers/dma.rs:788-801 | empties the slot of the allocation; unmaps all its pages and gives its block back once, or, when the IOVA cannot be unmapped, reports that and leaks the block; changes nothing for an unknown allocation |
| `Dma.Manager.RevokeAllAllocForPid` | kernel/src/drivers/dma.rs:398-412 | empties exactly the slots of the process and gives each of their blocks back once |
| `Claims.AfterKeepsExclusive` | kernel/src/drivers/device_claims.rs:123-219 | every request keeps claims pairwise non-overlapping and each PCI function with one owner |
| `Claims.EveryRunIsExclusive` | kernel/src/drivers/device_claims.rs:123-219 | so after every sequence of claim, trusted claim and revoke |
| `Claims.AtMostOneClaimCovers` | kernel/src/drivers/device_claims.rs:49-55 | at most one claim covers a non-empty range, saturating ends included |
| `Claims.NeverTwoOwners` | kernel/src/drivers/device_claims.rs:229-244 | `claim_contains` never holds for two processes on one range |
| `Claims.OneOwnerPerFunction` | kernel/src/drivers/device_claims.rs:156-164 | claims of one PCI function belong to one process |
| `Claims.GrantedPciClaimAvoidsRam` | kernel/src/drivers/device_claims.rs:94-108 | no byte of a granted PCI claim lies in a usable or kernel-image region |
| `Claims.PciClaimGrantedExactlyWhen` | kernel/src/drivers/device_claims.rs:123-176 | a PCI claim is granted if and only if the caller is admin, the range lies in a reserved region or a BAR of the given function, meets no usable or kernel-image region, no claim, and no other process holds the function; each error exactly when its test is the first to fail; the table then gains exactly that claim |
| `Claims.TrustedClaimGrantedExactlyWhen` | kernel/src/drivers/device_claims.rs:178-213 | a trusted claim is granted if and only if size and owner are not zero and the range is an own claim already or meets none; each error exactly, and the table gains that claim unless it was there |
| `Claims.RevokeLeavesOthers` | kernel/src/drivers/device_claims.rs:215-219 | a claim is there after a revocation exactly when it was there and has another owner |
| `Claims.ClaimTable.ClaimPci` | kernel/src/drivers/device_claims.rs:123-176 | the answer and the new table that `Claims.PciClaimGrantedExactlyWhen` describes |
| `Claims.ClaimTable.ClaimTrusted` | kernel/src/drivers/device_claims.rs:178-213 | the answer and the new table that `Claims.TrustedClaimGrantedExactlyWhen` describes; repeating an own claim changes nothing |
| `Claims.ClaimTable.RevokeClaimsForPid` | kernel/src/drivers/device_claims.rs:215-219 | keeps exactly the other processes' claims, in order |
| `Claims.ClaimTable.BdfOfPid` | kernel/src/drivers/device_claims.rs:221-227 | the PCI function of the first claim of the process |
| `Claims.ClaimTable.Contains` | kernel/src/drivers/device_claims.rs:229-244 | true exactly when one claim of the process covers the whole non-empty range |
| `Drivers.MsiTable.Alloc` | kernel/src/drivers/mod.rs:270-292 | the answer of the request, the lease added, and a handle no live lease has until the 64-bit counter wraps |
| `Drivers.MsiTable.Config` | kernel/src/drivers/mod.rs:294-309 | succeeds exactly when some lease has this handle, owner and vector, and configures that vector of that lease only |
| `Drivers.MsiTable.Free` | kernel/src/drivers/mod.rs:311-322 | gives up exactly the lease with the handle, when the caller owns it |
| `Drivers.MsiTable.ReleaseAllForPid` | kernel/src/drivers/mod.rs:87-92 | keeps exactly the other processes' leases and counts the rest |
| `Drivers.MmioTable.Unmap` | kernel/src/drivers/dma.rs:930-942 | unmaps the first window with this process, address and size and keeps the others in order, or changes nothing when there is none |
| `Drivers.MmioTable.RevokeAllMmio` | kernel/src/drivers/dma.rs:944-961 | unmaps every window of the process once and keeps the others in order |
| `Drivers.DriverManager.DriverDoExit` | kernel/src/drivers/mod.rs:259-268 | all five tables lose exactly the entries of the process; its blocks are given back once, its windows unmapped once, its IOVA pages unmapped; every invariant is kept, so no IOVA page outlives its owner |
| `Drivers.NothingLeft` | kernel/src/drivers/mod.rs:259-268 | after an exit no table knows the process and every other entry is still there |
| `Drivers.PinsAfterExit` | kernel/src/drivers/dma.rs:669-690 | a frame keeps exactly the references of the records of other processes |
| `StackImage.BuildIsInitialStack` | kernel/src/fs/elf_loader_impl.rs:1115-1176 | whatever fits is laid out as argc, argv pointers, null, envp pointers, null, a null auxiliary pair, with the stack pointer 8 mod 16 and every pointer leading to its terminated string |
| `StackImage.ProcessReadsItsStrings` | kernel/src/fs/elf_loader_impl.rs:1092-1103 | reading a C string through a pointer gives the argument back if and only if it holds no zero byte |
| `StackImage.BuildSucceedsExactlyWhenItFits` | kernel/src/fs/elf_loader_impl.rs:1115-1176 | the build succeeds if and only if strings, alignment and table fit in the window |
| `StackImage.GrownKeeps` | kernel/src/fs/elf_loader_impl.rs:1092-1113 | no push damages what an earlier push wrote |
| `InitialStack.WriteStackBytes` | kernel/src/fs/elf_loader_impl.rs:1026-1081 | the pages, read in order, change by exactly the bytes written, across page borders; nothing is written on an error or outside the pages |
| `InitialStack.PushStackBytes` | kernel/src/fs/elf_loader_impl.rs:1092-1103 | the pages show the pushed string and its terminator |
| `InitialStack.PushStackU64` | kernel/src/fs/elf_loader_impl.rs:1105-1113 | the pages show the pushed word, little-endian |
| `InitialStack.BuildInitialProcessStack` | kernel/src/fs/elf_loader_impl.rs:1115-1176 | the scattered pages hold an initial stack for the arguments, or the error of the first push that does not fit is returned |
| `FilePage.Registry.Intern` | kernel/src/fs/elf_loader_impl.rs:223-237 | a blob keeps its identifier, a new one gets the next with no ranges, none exactly when the registry is full |
| `FilePage.Registry.Get` | kernel/src/fs/elf_loader_impl.rs:239-245 | the blob an identifier was given to |
| `FilePage.Registry.ClearSegments` | kernel/src/fs/elf_loader_impl.rs:247-255 | empties the ranges of one file only |
| `FilePage.Registry.AddSegment` | kernel/src/fs/elf_loader_impl.rs:257-274 | appends a range to one file only, refused exactly for an unknown file or a ninth range |
| `FilePage.Registry.SegmentsFor` | kernel/src/fs/elf_loader_impl.rs:276-287 | the ranges registered for a file, none for an unknown one |
| `FilePage.LoadPageOfFile` | kernel/src/fs/elf_loader_impl.rs:544-554 | fails exactly for an unknown or unreadable file, leaving the page alone; otherwise the page shows that file through its own ranges |
| `FilePage.LoadFilePage` | kernel/src/fs/elf_loader_impl.rs:544-627 | byte j of the page is the file byte at offset + j if a registered range covers it within the file, and zero otherwise; with no ranges the raw file |
| `FilePage.OrderDoesNotMatter` | kernel/src/fs/elf_loader_impl.rs:597-624 | neither order nor repetition of the ranges matters |
| `FilePage.EverySegmentSeesItsFile` | kernel/src/fs/elf_loader_impl.rs:778-840 | every file-backed address of every segment reads its own file byte, whatever the other segments, when address and offset agree within a page |
| `FilePage.OwnPositionExactlyWhenCongruent` | kernel/src/fs/elf_loader_impl.rs:948-979 | and only then does an address see its own file position |
| `FilePage.BssIsZeroExactlyWhen` | kernel/src/fs/elf_loader_impl.rs:544-627 | an address past the file part reads zero exactly when no other segment puts a non-zero file byte at that position |
| `FilePage.BssCanShowTheNextSegment` | kernel/src/fs/elf_loader_impl.rs:544-627 | two accepted segments for which it does not read zero |
| `Relocation.ComputeVirtBounds` | exo-boot/src/kernel_loader/elf.rs:419-446 | the least address and the greatest end of the loaded segments, overflow and the empty image reported exactly |
| `Relocation.LoadSegments` | exo-boot/src/kernel_loader/elf.rs:274-322 | the image after the segments that come before the first unsound one; success exactly when every file part is in the file and every segment in the image, an error exactly when that first segment fails the 64-bit range test, undefined otherwise |
| `Relocation.LoadedByte` | exo-boot/src/kernel_loader/elf.rs:274-322 | a byte of the last segment covering it comes from the file, or is zero past the file part |
| `Relocation.LoadLeavesOthers` | exo-boot/src/kernel_loader/elf.rs:274-322 | a byte of no loaded segment is what memory held before |
| `Relocation.LoadIgnoresMemory` | exo-boot/src/kernel_loader/elf.rs:274-322 | loaded bytes do not depend on what memory held before |
| `Relocation.TableRunsAsList` | exo-boot/src/kernel_loader/relocations.rs:178-216 | a relocation table that spares itself runs as the list it held when the image was loaded |
| `Relocation.ApplyPieRelocations` | exo-boot/src/kernel_loader/relocations.rs:108-230 | the result and the image after reading the dynamic section up to its null entry and applying the table in place, every early return and error included, for every image; undefined exactly when an entry is read or a word written outside the image; what that image is, word by word, is stated by the members of `RelocationWords` |
| `RelocationWords.ScanFinds` | exo-boot/src/kernel_loader/relocations.rs:132-150 | reading the dynamic section finds the last value of each tag before the first null tag |
| `RelocationWords.PlanFromWords` | exo-boot/src/kernel_loader/relocations.rs:108-172 | the table starts at the DT_RELA word and has DT_RELASZ / 24 entries; nothing to do without both or below 24 bytes; refused if DT_RELAENT is not 24 |
| `RelocationWords.ResultFromWords` | exo-boot/src/kernel_loader/relocations.rs:178-230 | Ok if and only if one of those entries is base-relative |
| `RelocationWords.RelativeEntryApplied` | exo-boot/src/kernel_loader/relocations.rs:178-216 | for every k below the count, entry k, if base-relative and last for its word, leaves the base plus its addend there |
| `RelocationWords.AbsoluteEntryApplied` | exo-boot/src/kernel_loader/relocations.rs:178-216 | an absolute entry alone on its word adds its addend to the word loaded there |
| `RelocationWords.OtherBytesStay` | exo-boot/src/kernel_loader/relocations.rs:178-216 | a byte in no patched word stays as it was loaded |
| `RelocationWords.OutcomeWithoutTable` | exo-boot/src/kernel_loader/relocations.rs:152-178 | without a table, or with one shorter than an entry, Ok and an unchanged image; entries of another size are refused with the image unchanged |
| `RelocationWords.OutcomeWithoutDynamic` | exo-boot/src/kernel_loader/relocations.rs:108-130 | without a dynamic segment, or not position-independent, Ok and unchanged; a dynamic size that is no multiple of 16 is refused |
| `Relocation.LastForWordStands` | exo-boot/src/kernel_loader/relocations.rs:178-216 | after the whole table, a base-relative target holds the base plus the addend of its last entry |
| `Relocation.BaseIndependent` | exo-boot/src/kernel_loader/relocations.rs:108-230 | loaded over any two memories and relocated for any two bases, an image gives the same result and equal loaded bytes, except that each base-relative word differs by the difference of the bases modulo 2^64 |
| `Relocation.RelativePointsIntoImageExactlyWhen` | exo-boot/src/kernel_loader/relocations.rs:184-192 | the word that relocating a well-formed image leaves at a base-relative target points to where its link address was loaded if and only if the image is linked at zero |
| `Relocation.HighLinkPointsAway` | exo-boot/src/kernel_loader/relocations.rs:184-192 | a concrete image linked at 4096 whose relocated word misses the loaded address by 4096 |
| `PageTables.WalkIsIdentityAndWindow` | exo-boot/src/memory/paging.rs:173-224 | the walk maps every address below 4 GiB to itself, the window at root entry 511 to the same 4 GiB, and nothing else, for every page-aligned pool; all of it writable, executable and global, for the kernel only |
| `PageTables.KernelBaseIsNotMapped` | exo-boot/src/memory/paging.rs:201-217 | the documented kernel base is not mapped |
| `PageTables.TableAllocator.AllocateTable` | exo-boot/src/memory/paging.rs:124-138 | hands out the next page cleared, or reports exhaustion at 32 pages |
| `PageTables.SetupKernelPageTables` | exo-boot/src/memory/paging.rs:173-224 | builds those tables in the first seven pages and writes no other, so the eight pages of the BIOS pool suffice |
| `IntegrityRoot.ComputeRoot` | kernel/build.rs:161-204 | the root of the sections the search finds, or none exactly when the search fails |
| `IntegrityRoot.HashedExactlyWhen` | kernel/build.rs:161-204 | two byte strings are what the build script hashes if and only if the image announces its section table, every section is readable, and they are the bodies, neither empty, of the last .text and the last .rodata |
| `IntegrityRoot.SearchFinds` | kernel/build.rs:182-204 | the search gets through exactly when every section is readable, and finds the last bodies |
| `IntegrityRoot.ParseElfSafe` | kernel/src/exophoenix/forge.rs:235-285 | the sections the parser finds, or its error |
| `IntegrityRoot.ParsedExactlyWhen` | kernel/src/exophoenix/forge.rs:235-285 | the parser returns exactly what stands in the image: it succeeds if and only if the image announces its section table, every section is readable, .data sections have bodies and .text and .rodata are there, with the last body of each, the last .bss header and the entry word at 24 |
| `IntegrityRoot.ParseFinds` | kernel/src/exophoenix/forge.rs:260-275 | the loop gets through exactly when it can take every section, and keeps the last of each |
| `IntegrityRoot.SearchesAgree` | kernel/build.rs:182-192 | section by section, where the build script gets through the parser does exactly when .data lies in the image, with the same .text and .rodata |
| `IntegrityRoot.ParserFindsWhatWasHashed` | kernel/src/exophoenix/forge.rs:235-285 | for every image the build script accepts, the parser finds the hashed sections or a .data section is outside the image |
| `IntegrityRoot.Hasher.UpdateAligned` | kernel/src/exophoenix/forge.rs:322-329 | feeding through the reused 1024-byte buffer feeds exactly the input |
| `IntegrityRoot.VerifyMerkle` | kernel/src/exophoenix/forge.rs:298-341 | succeeds exactly when neither stored hash is zero and the hash of .text ++ .rodata is the root |
| `IntegrityRoot.VerifyImage` | kernel/src/exophoenix/forge.rs:368-385 | succeeds exactly on accepted images |
| `IntegrityRoot.AcceptedExactlyWhen` | kernel/src/exophoenix/forge.rs:368-385 | with the build script's own root, the image is accepted if and only if its .data sections are in the image, its last .bss header is within bounds, its entry word is not zero and neither stored hash is zero |
| `IntegrityRoot.NoEntryIsRefused` | kernel/src/exophoenix/forge.rs:368-385 | a concrete image for which, whatever the hash, the build script stores a root and the kernel refuses it with that root |
| `ServiceOrder.TopologicalSort` | tools/check_service_order.py:91-121 | the result lists every service once, each after all it requires; there is none if and only if the declared services have a dependency cycle |
| `ServiceOrder.BuildGraph` | tools/check_service_order.py:96-107 | in-degrees count the declared dependencies and edge lists repeat them, duplicates included |
| `ServiceOrder.ReleaseEdges` | tools/check_service_order.py:111-117 | finishing a service queues exactly the services that have nothing left pending |
| `ServiceOrder.StartOrderExcludesCycles` | tools/check_service_order.py:119-121 | a start order leaves no room for a cycle |
| `ServiceOrder.StuckServicesHaveACycle` | tools/check_service_order.py:119-120 | services that all wait for one another contain a cycle |
| `CivilDate.ConversionIsTheCalendar` | exo-boot/build.rs:105-119 | for every number of days the conversion is the day-by-day Gregorian count from 1970-01-01 |
| `CivilDate.EpochDateIsTheCalendar` | exo-boot/build.rs:105-119 | for every 64-bit epoch, and 86400 seconds later is the calendar's next date |
| `CivilDate.SuccessorLaw` | exo-boot/build.rs:108-117 | one day more is the next date under the 4/100/400 rule |
| `CivilDate.DayNumberInverts` | exo-boot/build.rs:108-117 | days-from-civil undoes the conversion |
| `CivilDate.ConversionInverts` | exo-boot/build.rs:108-117 | and the conversion undoes days-from-civil on every date from 1970 |

## Left out

- Wrap-around of the 32-bit head and tail counters of the event queue: the theorems cover runs with head up to 2^32 - 256.
- Hardware memory ordering: atomic operations are taken as sequentially consistent steps.
- Other writers of the handoff flag, and the hardware side of isolation (IPI delivery, IOMMU, MSI masking, spinlock scan): the flag, the acks and the saved FPU state are what is modelled.
- The allocator's own list of IOVA mappings: the model keeps one table of mapped pages, also in passthrough mode, where the allocator keeps none.
- The IOVA allocator, the buddy allocator, page tables and VMA trees: their answers are arguments, and an allocation's window in the process is not tracked after it is handed out.
- Mapping of MMIO windows and DMA synchronisation: they would add members no harder than unmapping.
- Bus-master control, link retraining, interrupt routing and the IOMMU domain registry at driver exit.
- Locks around the driver tables: each call is one atomic action.
- Reloading a blob while a process of an earlier load still faults: they share one range list, and the theorems speak of the list as it is at the fault.
- What the loader does outside the file or the image, when a file range wraps 64 bits or a relocation target is outside: the model says exactly when that happens and stops there.
- RelocationWords.RelativeEntryApplied: speaks of tables that patch the image but not themselves, and whose base-relative words are patched by nothing else; for any other table `Relocation.ApplyPieRelocations` still gives the image, entry by entry in order.
- ELF program headers and the dynamic segment are records here, not decoded from bytes; section headers, relocation entries and dynamic entries are.
- The hash and UTF-8: BLAKE3 is any function of the bytes fed to it, and UTF-8 validity any predicate on bytes.
- The text layout of the date, and the KASLR base computation.
- The rest of the service-table checks, which are lookups in the table.
- Overflow checks of a debug build: unchecked additions wrap, as in a release build.
