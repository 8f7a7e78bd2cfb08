# Nachos user processes and demand paging, in Dafny

This project models the memory side of a Nachos kernel (the instructional
operating system, Java edition) and proves properties of the model. It covers
two parts.

**Demand paging** (`nachos/vm/VMProcess.java`, `nachos/vm/VMKernel.java`):

- A process starts with an all-invalid page table and a map from page number to
  COFF section.
- A TLB miss first copies the used and dirty bits of every valid TLB slot into
  the translation entry that owns the slot's frame. It then picks a TLB slot:
  the lowest invalid one, or a random one that it retires.
- If the page is not valid, the miss faults. The fault takes the lowest free
  frame. When memory is full, it runs the second-chance clock over the
  inverted page table, skipping pinned frames and frame 0.
- A dirty victim is written to the first free swap slot (the slot list grows
  when none is free). The victim's translation is invalidated in the page table
  and in the TLB.
- The fault then fills the frame from one of three places: the executable's
  section, the page's swap slot, or zeros.
- A context switch copies every valid TLB slot back into the page table and
  flushes it.
- Unloading frees the process's frames and swap slots.
- The kernel keeps the frame table with pin counts, the clock hand, the
  pinned-page counter and the swap-slot list.

**Eagerly loaded processes** (`nachos/userprog/UserProcess.java`):

- Copies between virtual memory and kernel buffers, page by page, through the
  page table: readVirtualMemory, writeVirtualMemory and readVirtualMemoryString.
- The address-space layout that load computes: sections, then 8 stack pages,
  then one argument page.
- loadSections and unloadSections on the kernel's free-frame stack.
- The descriptor-table system calls creat, open and close.
- The argument checks and memory reads of read, write and exec.

Physical memory is a `seq`/`array` of `byte` (0..255), the TLB is an array of
`TranslationEntry` values, and the page size is 1024.

The frame table stores the owner of each frame. In Java this is a reference to
a mutable entry object, usually the same object as a page-table slot. The model
writes that reference as `Mapped(vpn)`, meaning slot `vpn` of this process's
page table. An owner the model cannot see as a slot is `Detached(entry)`: the
placeholder a free-frame claim installs, or an entry of another process. A
write "through the reference" becomes `SetOwner`.

The module layout follows the source:

| module | file | role |
|---|---|---|
| `Machine` | `machine.dfy` | page geometry, entries, sections, the processor's memory and TLB |
| `VMKernel` | `vm_kernel.dfy` | the frame table, the clock hand, pins and swap slots |
| `PagingSpec` | `paging_spec.dfy` | pure definitions of the paging algorithms |
| `FaultSpec` | `fault_spec.dfy` | the clock, the eviction, the fault and the miss as functions of the paging state, with their lemmas |
| `VMProcess` | `vm_process.dfy` | the demand-paged process |
| `UserSpec` | `user_spec.dfy` | pure definitions of translation, copies, strings, layout, argv, descriptors |
| `UserProcess` | `user_process.dfy` | the eagerly loaded process and the kernel's free-frame stack |

## Model

| member | source | states |
|---|---|---|
| VMKernel.NewPageFrame | nachos/vm/VMKernel.java:90-93 | a new frame record has the given owner and no pins |
| VMKernel.ModifyPageFrame | nachos/vm/VMKernel.java:95-98 | changing a frame's owner drops its pins, so the record equals a new one for that owner |
| VMKernel.SumPinsUpdate | nachos/vm/VMKernel.java:68-80 | changing one frame's pin count changes the sum of all pins by the same amount |
| VMKernel.VMKernel.Initialize | nachos/vm/VMKernel.java:26-43 | every frame is free and unpinned, the hand is at 0, no page is pinned, no swap slot exists, and the pin counter matches the frames |
| VMKernel.VMKernel.PinPage | nachos/vm/VMKernel.java:68-73 | the frame's pin count and the global counter both go up by one; nothing else changes; the counter stays equal to the sum of pin counts |
| VMKernel.VMKernel.UnpinPage | nachos/vm/VMKernel.java:75-80 | the frame's pin count and the global counter both go down by one; nothing else changes; the counter stays balanced |
| VMKernel.VMKernel.PinThenUnpin | nachos/vm/VMKernel.java:68-80 | pinning then unpinning a frame restores the frame table and the counter |
| VMKernel.VMKernel.ApplyPinOps | nachos/vm/VMKernel.java:68-80 | any sequence of pins and unpins keeps the counter equal to the sum of pin counts and changes no owner |
| PagingSpec.FirstFreeFrame | nachos/vm/VMProcess.java:195-201 | the fault's scan finds the lowest frame with no owner, or reports that every frame is owned |
| PagingSpec.FirstInvalidSlot | nachos/vm/VMProcess.java:151-157 | the lowest invalid TLB slot, or none exactly when every slot is valid |
| PagingSpec.FirstValidSlotFor | nachos/vm/VMProcess.java:298-306 | the lowest valid TLB slot translating the page, or none exactly when no slot does |
| PagingSpec.LastValidSlotFor | nachos/vm/VMProcess.java:33-43 | the highest valid slot that translates the page, which is the copy a flush leaves in the page table |
| PagingSpec.LastValidSlotInFrame | nachos/vm/VMProcess.java:33-43 | the highest valid slot that maps into the frame, whose page a flush leaves as the frame's owner |
| PagingSpec.LoneSlotIsLast | nachos/vm/VMProcess.java:33-43 | when only one slot translates a page, the flush takes that slot |
| PagingSpec.FirstFreeSwapSlot | nachos/vm/VMProcess.java:267-279 | the swap-out takes the first free slot, or a new slot at the end when none is free |
| PagingSpec.AllocateSwapSlot | nachos/vm/VMProcess.java:267-279 | the chosen slot becomes occupied by its own index; the list grows by one exactly when it had no free slot; other slots are unchanged |
| PagingSpec.FreedSlotReused | nachos/vm/VMProcess.java:267-279 | a slot freed by a swap-in is reused, or a lower free slot is, before the list grows |
| PagingSpec.SetOwner | nachos/vm/VMProcess.java:144-145 | writing an entry through a frame's owner changes exactly the owners shared with that frame and no unrelated page-table slot |
| PagingSpec.WriteBack | nachos/vm/VMProcess.java:139-148 | copying the TLB bits back changes only used and dirty bits, in page-table slots and owners alike, and keeps the frame table's shape |
| PagingSpec.WriteBackEffect | nachos/vm/VMProcess.java:139-148 | after the copy, each owner carries the bits of the last valid slot that maps one of its frames, or is unchanged when no slot does |
| PagingSpec.SyncBack | nachos/vm/VMProcess.java:372-385 | flushing keeps the lengths of the frame table and the page table |
| PagingSpec.SyncBackEffect | nachos/vm/VMProcess.java:27-44 | after a flush, each page holds the last valid slot translating it, and each frame is owned by the page of the last valid slot mapping into it |
| PagingSpec.SyncBackShape | nachos/vm/VMProcess.java:372-385 | a flush keeps pins and which frames are owned, every owner stays inside the page table, and each page keeps its own number |
| PagingSpec.SameShapeKeepsReplaceable | nachos/vm/VMProcess.java:211-224 | copying TLB bits back before the clock changes neither whether a free frame exists nor whether an evictable frame exists |
| PagingSpec.TLBWithout | nachos/vm/VMProcess.java:297-306 | the TLB keeps its length, and each slot is either kept or, being a valid slot translating the page, blanked |
| PagingSpec.RetireIfFull | nachos/vm/VMProcess.java:150-173 | with an invalid slot nothing changes; otherwise the random slot's bits go to its frame's owner and the slot is invalidated; the frame table keeps its shape, and every slot still valid is unchanged and maps an owned frame |
| PagingSpec.MissSlotState | nachos/vm/VMProcess.java:139-173 | the state once a miss has picked its slot: the write-back and then the retirement, keeping the frame table's shape and the lengths, with every valid slot mapping an owned frame |
| PagingSpec.UsedBits | nachos/vm/VMProcess.java:229-238 | the clock's progress measure: one flag per frame, set exactly when the frame is evictable and its owner's used bit is set |
| PagingSpec.CountTrueDecreases | nachos/vm/VMProcess.java:233-234 | clearing a second chance and setting none lowers the number of frames with a second chance |
| PagingSpec.PlaceholderVictimHasNoFrame | nachos/vm/VMProcess.java:243-246 | a victim still owned by the free-frame placeholder gives the new translation frame -3 |
| PagingSpec.SwappedOwnerVictimHasNoFrame | nachos/vm/VMProcess.java:243-246 | a victim whose owner was swapped out earlier gives the new translation frame -2 |
| PagingSpec.AsWrittenAgreesWhenSynced | nachos/vm/VMProcess.java:243-246 | when the owner's frame number is synchronised, the source's choice of frame is the victim frame itself |
| PagingSpec.DirtyPlaceholderSwapsFromOutsideMemory | nachos/vm/VMProcess.java:259-284 | an evictable victim still owned by a placeholder that a zero-filled fault made dirty is swapped out from byte offset -3072, which lies before memory |
| PagingSpec.SwappedOwnerSwapsFromOutsideMemory | nachos/vm/VMProcess.java:259-284 | an evictable victim whose dirty owner was swapped out earlier (ppn -2) is swapped out from byte offset -2048, which lies before memory |
| PagingSpec.SectionPages | nachos/vm/VMProcess.java:72-79 | the pages a section's loop has recorded so far, each mapped to that section |
| PagingSpec.CoffMapCovers | nachos/vm/VMProcess.java:70-80 | a page is in the section map exactly when some section covers it, and it maps to a section covering it |
| PagingSpec.FaultSource | nachos/vm/VMProcess.java:311-348 | a page loaded from a section uses its own section and index within it; a page read from swap uses its own slot |
| PagingSpec.ReadOnlyPagesComeFromSections | nachos/vm/VMProcess.java:328-330 | a read-only page is always reloaded from its section |
| PagingSpec.SwappedPagesComeBack | nachos/vm/VMProcess.java:331-340 | a writable page seen before that has a swap slot is read back from that slot |
| PagingSpec.OnlyFreshStackPagesStartDirty | nachos/vm/VMProcess.java:312-325 | a page starts dirty exactly when it was never resident and lies past the section map |
| FaultSpec.ClearingStep | nachos/vm/VMProcess.java:231-234 | clearing the used bit of an evictable frame's owner keeps the clock ready, clears only that bit, and lowers the count of set used bits, which bounds the clock loop |
| FaultSpec.Clock | nachos/vm/VMProcess.java:229-242 | the clock clears only used bits, and stops on an evictable frame (unpinned, not frame 0) whose owner's used bit is clear |
| FaultSpec.ClockPathShape | nachos/vm/VMProcess.java:229-242 | the frames the clock passes are exactly those from the hand up to its stop, or every frame when it goes once round |
| FaultSpec.ClockClearsPath | nachos/vm/VMProcess.java:231-237 | every evictable frame the clock passes had its owner's used bit set, and has it clear afterwards |
| FaultSpec.ClockClearsPassed | nachos/vm/VMProcess.java:229-242 | every evictable frame from the hand up to the stop had its owner's used bit set and has it clear afterwards |
| FaultSpec.ClockKeepsUnpassed | nachos/vm/VMProcess.java:229-242 | an owner that no evictable frame on the clock's path shares keeps its whole entry, used bit included |
| FaultSpec.Evicted | nachos/vm/VMProcess.java:262-306 | eviction keeps the paging state well formed, the shape of the frame table, memory and the hand; no page becomes valid |
| FaultSpec.EvictedOwner | nachos/vm/VMProcess.java:262-306 | the evicted owner is invalid, with ppn -2 exactly when it was dirty; the TLB loses the owner page's first translation; a dirty owner takes the first free swap slot, which holds the frame's bytes and which the swap table records for its page, every other slot and entry unchanged; a clean owner leaves the slot list, the swap and the swap table unchanged |
| FaultSpec.EvictThenSwapIn | nachos/vm/VMProcess.java:263-348 | after a dirty writable page is evicted, a fault on it reads its swap slot, which holds the evicted frame's bytes |
| FaultSpec.Clocked | nachos/vm/VMProcess.java:210-256 | writing back and running the clock keeps the state well formed, every frame owned and no page newly valid, and changes neither the TLB nor memory |
| FaultSpec.ClockedStop | nachos/vm/VMProcess.java:229-251 | the clock runs over the written-back bits from the hand; the frame it stops on is evictable, the hand moves one past it, and its owner is the write-back's with the used bit clear |
| FaultSpec.Reserved | nachos/vm/VMProcess.java:194-306 | the reserved frame is owned; every frame keeps its pins and stays owned if it was; no page becomes valid; memory is unchanged |
| FaultSpec.ReservedEffect | nachos/vm/VMProcess.java:194-306 | with a free frame the lowest one gets the placeholder owner and nothing else changes; otherwise the frame was evictable, the hand is one past it, the TLB is FaultTLB, and a dirty owner's bytes are in swap under its page |
| FaultSpec.PageContent | nachos/vm/VMProcess.java:311-348 | the bytes a fill produces are a whole page when the loader, the swap and the frame hold whole pages |
| FaultSpec.Populated | nachos/vm/VMProcess.java:311-348 | the fill changes only memory, the slot list and page `vpn`'s dirty bit: frame table, TLB, hand, swap and swap table unchanged |
| FaultSpec.Recorded | nachos/vm/VMProcess.java:350-353 | the frame's owner gets used clear and the fill's dirty bit, and nothing but the frame table and page table changes |
| FaultSpec.Fault | nachos/vm/VMProcess.java:188-357 | the translation is valid, writable, for page `vpn`, into an owned frame; every frame keeps its pins; no page becomes valid |
| FaultSpec.FaultFillsFrame | nachos/vm/VMProcess.java:311-356 | the fault's frame holds what FaultSource names for the page as the reservation left it; the translation is dirty exactly for a fresh zero-filled page; every other frame keeps its bytes |
| FaultSpec.FaultOnFreeFrame | nachos/vm/VMProcess.java:194-207 | with a free frame the fault takes the lowest, owned by the placeholder with the translation's dirty bit; no other page, the TLB, the hand, the swap and the swap table change |
| FaultSpec.FaultByEviction | nachos/vm/VMProcess.java:208-306 | with memory full the frame is the clock's stop over the written-back bits, evictable; the hand is one past it; the TLB is FaultTLB |
| FaultSpec.FaultEvictsOwner | nachos/vm/VMProcess.java:243-295 | the evicted owner is invalid, with ppn -2 exactly when it was dirty; a dirty owner's bytes are in the first free slot, recorded for its page; a clean owner leaves the swap and swap table unchanged |
| FaultSpec.FaultSwapSlots | nachos/vm/VMProcess.java:263-348 | a dirty eviction allocates the first free slot and a swap-in then frees the slot it read; otherwise the slot list is unchanged |
| FaultSpec.Picked | nachos/vm/VMProcess.java:139-173 | the pick keeps the state well formed, the shape of the frame table, and no page becomes valid |
| FaultSpec.PickedSlot | nachos/vm/VMProcess.java:150-173 | with an invalid slot the TLB is unchanged; with none, exactly the random slot is invalidated; the slot taken is invalid; no page changes validity |
| FaultSpec.Resolved | nachos/vm/VMProcess.java:175-179 | the translation installed is valid, for page `vpn`, into an owned frame; no page becomes valid |
| FaultSpec.Filled | nachos/vm/VMProcess.java:175-179 | slot `index` holds a valid translation of page `vpn` into an owned frame |
| FaultSpec.Miss | nachos/vm/VMProcess.java:133-180 | the miss succeeds exactly for a page inside the page table; then its slot is the lowest invalid or the random one and holds a valid translation of the page into an owned frame |
| FaultSpec.MissOutcome | nachos/vm/VMProcess.java:133-180 | a failed miss leaves the pick's state; a valid page's entry goes into the slot with nothing else changed after the pick; an invalid page gets a fault's translation in the slot and stays invalid in the page table |
| FaultSpec.MissCommitted | nachos/vm/VMProcess.java:372-385 | after the commit, the slot's translation is the page's page-table entry and its page owns its frame |
| VMProcess.UnloadStop | nachos/vm/VMProcess.java:93-98 | the frame pass stops at the first frame it cannot take, and it reaches the end exactly when every frame can be taken |
| VMProcess.Unloaded | nachos/vm/VMProcess.java:94-97 | after the pass a frame is free exactly when it was free or owned by this page table; pins and other owners are kept |
| VMProcess.UnloadFailsOnFreeFrame | nachos/vm/VMProcess.java:93-98 | one free frame stops the frame pass, which dereferences the missing owner |
| VMProcess.UnloadFailsOnPlaceholder | nachos/vm/VMProcess.java:95 | a placeholder owner (page -3) stops the frame pass with an out-of-range index |
| VMProcess.PageInSomeSection | nachos/userprog/UserProcess.java:299-309 | with contiguous sections, every page below the first k sections' total lies in one of those sections |
| VMProcess.CoffMapDense | nachos/vm/VMProcess.java:70-80 | with contiguous sections the section map holds exactly the pages below the section page count, so its size is that count and the fault's `vpn < vpnCoffMap.size()` test is membership |
| VMProcess.InitialEntryOverride | nachos/vm/VMProcess.java:70-80 | a later section decides the read-only flag of the pages it covers and leaves other pages alone |
| VMProcess.VMProcess.LoadSections | nachos/vm/VMProcess.java:59-84 | always succeeds; every page gets an invalid entry with ppn -1 whose read-only flag comes from its section; the section map gains every section's pages; on a ready machine with contiguous sections the paging invariants hold afterwards |
| VMProcess.VMProcess.constructor | nachos/vm/VMProcess.java:19-21 | a new process has an empty page table, section map and swap table, and is ready to load exactly when its machine is ready (empty TLB, no frame owned by it) |
| VMProcess.VMProcess.LoadedInvariants | nachos/vm/VMProcess.java:59-84 | a page table of initial entries over contiguous sections, with nothing swapped and an empty TLB, satisfies the paging invariants |
| VMProcess.VMProcess.MarkSections | nachos/vm/VMProcess.java:70-80 | after the section loop every page holds the initial entry for the whole section map, and the map gains every section's pages |
| VMProcess.VMProcess.MarkSection | nachos/vm/VMProcess.java:72-79 | the pages a section covers take its read-only flag and are mapped to it; other pages are unchanged |
| VMProcess.VMProcess.SyncTLBEntry | nachos/vm/VMProcess.java:372-385 | the TLB entry becomes its page's entry, and that page becomes the owner of its frame |
| VMProcess.VMProcess.SaveState | nachos/vm/VMProcess.java:27-44 | every TLB slot ends up invalid; each page holds the last valid slot translating it; each frame is owned by the page of the last valid slot mapping into it; the paging invariants hold afterwards (TranslationsOwned, and CoffLookupsDefined when it held before), so a miss or fault may follow the context switch |
| VMProcess.VMProcess.UpdateOwner | nachos/vm/VMProcess.java:144-145 | the write goes through the frame's owner, as SetOwner describes, and keeps the invariants |
| VMProcess.VMProcess.WriteBackTLBBits | nachos/vm/VMProcess.java:139-148 | the frame table and page table become WriteBack of the TLB, and the invariants hold |
| VMProcess.VMProcess.FindInvalidSlot | nachos/vm/VMProcess.java:151-157 | returns the lowest invalid TLB slot, or -1 when all are valid |
| VMProcess.VMProcess.ClaimFreeFrame | nachos/vm/VMProcess.java:194-202 | returns the lowest free frame and gives it the placeholder owner, or returns -1 and changes nothing |
| VMProcess.VMProcess.ClearUsed | nachos/vm/VMProcess.java:233-234 | the frame's owner loses its used bit, and only used bits change, from set to clear |
| VMProcess.VMProcess.RunClock | nachos/vm/VMProcess.java:229-242 | the frame table, the page table and the frame it stops on are Clock of the old ones from the old hand (pinned frames and frame 0 passed, a set used bit of an evictable frame's owner cleared, stop at the first evictable frame whose owner's used bit is clear); the hand is left on that frame; the invariants hold |
| VMProcess.VMProcess.SweepClock | nachos/vm/VMProcess.java:229-242 | the clock loop: the frame table, the page table and the frame it stops on are Clock of the starting ones from the starting hand |
| VMProcess.VMProcess.PassFrame | nachos/vm/VMProcess.java:231-240 | one turn of the clock loop: it stops exactly on an evictable frame whose owner's used bit is clear, changing nothing; otherwise the clock from the next frame reaches the same result, a passed evictable frame's owner loses its used bit (the count of set used bits drops), and a pinned frame or frame 0 changes nothing |
| VMProcess.VMProcess.AllocSwapSlot | nachos/vm/VMProcess.java:266-279 | returns FirstFreeSwapSlot and leaves the slot list as AllocateSwapSlot |
| VMProcess.VMProcess.InvalidateTLBFor | nachos/vm/VMProcess.java:297-306 | the TLB becomes TLBWithout the page: only the first valid slot translating it is replaced by a blank entry |
| VMProcess.VMProcess.ZeroFrame | nachos/vm/VMProcess.java:318-322 | the frame holds zeros; all other bytes are unchanged |
| VMProcess.VMProcess.FillFrame | nachos/vm/VMProcess.java:337 | the frame holds the given page; all other bytes are unchanged |
| VMProcess.VMProcess.EvictFrame | nachos/vm/VMProcess.java:258-306 | a dirty owner gets the first free swap slot, which receives the victim frame's bytes, and ppn -2; the owner becomes invalid; the TLB becomes TLBWithout the owner's page; no page becomes valid |
| VMProcess.VMProcess.DetachOwner | nachos/vm/VMProcess.java:258-295 | the memory half of an eviction: a dirty owner's victim frame goes to swap, then the owner is invalidated, with the invariants kept |
| VMProcess.VMProcess.SwapOut | nachos/vm/VMProcess.java:262-287 | the victim frame's bytes go to the first free slot, which is recorded as the page's home in the swap table |
| VMProcess.VMProcess.SwapOutAsWritten | nachos/vm/VMProcess.java:262-287 | as written: the slot is always taken; the copy from the owner's ppn times the page size succeeds exactly when that ppn names a frame, and then swap and swap table record those bytes; otherwise both are unchanged |
| VMProcess.VMProcess.Populate | nachos/vm/VMProcess.java:311-348 | the frame receives the contents FaultSource names; the result is dirty exactly for a fresh zero-filled page; a swap-in frees its slot and clears the page's dirty bit |
| VMProcess.VMProcess.ReserveFrame | nachos/vm/VMProcess.java:194-306 | the new paging state and the frame are exactly Reserved of the old state (ReservedEffect: the lowest free frame given the placeholder and nothing else changed, or the clock's evictable victim with its owner evicted); the frame is owned, no pin changes and no page becomes valid |
| VMProcess.VMProcess.ReplaceFrame | nachos/vm/VMProcess.java:208-306 | with every frame owned: the new state and frame are exactly Reserved of the old state; the frame was evictable, the hand is one past it, the TLB loses the victim owner's first translation, and a dirty owner's victim bytes are in swap under its page |
| VMProcess.VMProcess.SelectVictim | nachos/vm/VMProcess.java:210-247 | the frame table, the page table and the frame are Clock run over the written-back TLB bits from the old hand; the frame was evictable and is where the hand stays; its owner keeps the page and dirty bit the write-back gave it |
| VMProcess.VMProcess.AdvanceHand | nachos/vm/VMProcess.java:250-256 | the hand moves one frame on, wrapping at the end of the table |
| VMProcess.VMProcess.HandlePageFault | nachos/vm/VMProcess.java:188-357 | the new paging state and the translation are exactly Fault of the old state (FaultFillsFrame, FaultOnFreeFrame, FaultByEviction, FaultEvictsOwner and FaultSwapSlots say what that is); the TLB is FaultTLB; no pin changes; with a free frame its owner is the placeholder carrying the translation's dirty bit |
| VMProcess.VMProcess.LoadReservedFrame | nachos/vm/VMProcess.java:311-356 | fills the reserved frame and returns the translation onto it, with its dirty bit set as the fill decides |
| VMProcess.VMProcess.RecordFaultBits | nachos/vm/VMProcess.java:350-353 | the frame's owner gets used clear and the fill's dirty bit; in the page table only used and dirty bits change |
| VMProcess.VMProcess.FillFrameFor | nachos/vm/VMProcess.java:311-348 | the frame holds what FaultSource names, other frames are unchanged, and only dirty bits change in the page table |
| VMProcess.VMProcess.HandleTLBMiss | nachos/vm/VMProcess.java:133-180 | the new paging state and the slot are exactly Miss of the old state: failure exactly for a page beyond the page table; otherwise the lowest invalid slot or the random one holds a valid translation of the page into an owned frame (MissOutcome and PickedSlot say what else changes) |
| VMProcess.VMProcess.SetSlot | nachos/vm/VMProcess.java:179 | slot `index` holds the translation, no other slot changes, and the invariants hold |
| VMProcess.VMProcess.PickSlot | nachos/vm/VMProcess.java:139-173 | the whole paging state becomes Picked (MissSlotState of the frame table, page table and TLB; memory, hand and swap unchanged); the slot is the lowest invalid one or the random one, and it is now invalid |
| VMProcess.VMProcess.ChooseSlot | nachos/vm/VMProcess.java:150-173 | the lowest invalid slot, or else the random slot; frame table, page table and TLB become RetireIfFull of the old ones |
| VMProcess.VMProcess.ResolveEntry | nachos/vm/VMProcess.java:175-179 | the new state and translation are exactly Resolved: a valid page's own entry with nothing changed, otherwise a fault's; the translation is valid, for the page, into an owned frame, and read-only only for a page with a section |
| VMProcess.VMProcess.FillSlot | nachos/vm/VMProcess.java:175-179 | the new state is exactly Filled: the invalid slot receives Resolved's translation and everything else is as Resolved leaves it |
| VMProcess.VMProcess.RetireSlot | nachos/vm/VMProcess.java:159-173 | the slot's bits go to its frame's owner, and then the slot is invalidated |
| VMProcess.VMProcess.HandleTLBMissAndSync | nachos/vm/VMProcess.java:175-179 | the slot is Miss's; the new state is Miss's state with the slot's translation committed (Committed): it becomes the page's page-table entry and its page the owner of its frame (MissCommitted) |
| VMProcess.VMProcess.CommitTranslation | nachos/vm/VMProcess.java:372-385 | the page table and frame table become Committed of the old ones: the translation is its page's entry and that page owns its frame; the invariants hold |
| VMProcess.VMProcess.UnloadSections | nachos/vm/VMProcess.java:89-110 | frees this table's frames up to the first frame the pass cannot take; completes exactly when every frame can be taken; only then releases this process's swap slots |
| VMProcess.VMProcess.FreeOwnFrames | nachos/vm/VMProcess.java:93-98 | frees this table's frames up to the first frame the pass cannot take (a free frame or an owner outside the table), and completes exactly when there is none |
| VMProcess.VMProcess.ReleaseSwap | nachos/vm/VMProcess.java:101-108 | the slots of this table's pages become free; those pages leave the swap table; other entries are unchanged |
| VMProcess.VMProcess.UnloadSectionsSafe | nachos/vm/VMProcess.java:89-110 | every frame this table owns is freed, no frame is left owned by this table, and the swap slots are released |
| UserSpec.TranslatePageRun | nachos/userprog/UserProcess.java:166-171 | addresses inside one page translate to a run of bytes of that page's frame |
| UserSpec.TransferCount | nachos/userprog/UserProcess.java:146-195 | a copy transfers between 0 and the requested length of bytes, and all of them lie inside the page table |
| UserSpec.ReadSpecAt | nachos/userprog/UserProcess.java:146-195 | byte k of a read is the physical byte that address vaddr+k translates to |
| UserSpec.ReadSpecAppend | nachos/userprog/UserProcess.java:174-192 | a read followed by the read right after it is one longer read |
| UserSpec.ReadSpecContiguous | nachos/userprog/UserProcess.java:171 | reading addresses that map to one physical run returns that run, as one arraycopy does |
| UserSpec.WriteSpecAppend | nachos/userprog/UserProcess.java:250-266 | storing x and then y right after it is storing x+y |
| UserSpec.WriteSpecContiguous | nachos/userprog/UserProcess.java:247 | storing into addresses that map to one physical run replaces that run |
| UserSpec.WriteSpecExtend | nachos/userprog/UserProcess.java:262 | one more page-sized store extends the store done so far |
| UserSpec.WriteSpecUntouched | nachos/userprog/UserProcess.java:223-269 | a physical byte that no stored address maps to keeps its value |
| UserSpec.WriteSpecAt | nachos/userprog/UserProcess.java:223-269 | with distinct frames, each stored byte is found where its address translates |
| UserSpec.ReadAfterWrite | nachos/userprog/UserProcess.java:146-269 | with distinct frames, reading back what was just written returns it |
| UserSpec.UntilTerminator | nachos/userprog/UserProcess.java:112-117 | the string is the bytes before the first zero, with no zero inside it; none exactly when no byte is zero |
| UserSpec.UntilTerminatorAt | nachos/userprog/UserProcess.java:112-114 | the first zero byte ends the string |
| UserSpec.SectionWithinPages | nachos/userprog/UserProcess.java:299-309 | with contiguous sections, each section lies inside the page count the loop computes |
| UserSpec.SectionPageCountNonNegative | nachos/userprog/UserProcess.java:300-308 | the section page count is never negative |
| UserSpec.Add32 | nachos/userprog/UserProcess.java:526 | Java int addition: the result is always an int, and it is the exact sum when that fits |
| UserSpec.BytesToInt | nachos/userprog/UserProcess.java:655 | Lib.bytesToInt of four bytes is a signed 32-bit int |
| UserSpec.LittleEndianRoundTrip | nachos/userprog/UserProcess.java:346 | decoding the k low-order bytes of a value below 256^k gives the value back |
| UserSpec.IntBytesRoundTrip | nachos/userprog/UserProcess.java:346 | bytesToInt undoes bytesFromInt for every int, which is how exec reads the pointers load stores |
| UserSpec.ArgvImageSize | nachos/userprog/UserProcess.java:312-319 | the argument page image that load writes is exactly argsSize bytes long |
| UserSpec.ArgPointerNamesString | nachos/userprog/UserProcess.java:345-348 | pointer i of the image decodes to where argument i's string starts |
| UserSpec.ArgStringAt | nachos/userprog/UserProcess.java:349-352 | argument i's string and its zero byte sit where its pointer says |
| UserSpec.ArgvImageReadsBack | nachos/userprog/UserProcess.java:339-353 | reading the argument page the intended way returns every argument: word i points at argument i, and the string there up to its terminator is that argument |
| UserSpec.FirstPointerPlusOffsetMisreads | nachos/userprog/UserProcess.java:655-659 | with arguments "ab" and "cd", the first pointer plus 4 reads "d", not "cd" |
| UserSpec.ExecAsWrittenMisreads | nachos/userprog/UserProcess.java:648-659 | the same misread through virtual memory: the argument image held at argv yields "d" for the second argument |
| UserSpec.FirstEmptySlot | nachos/userprog/UserProcess.java:471-476 | the lowest empty descriptor slot, or none exactly when all are taken |
| UserSpec.LastIndexOf | nachos/userprog/UserProcess.java:640 | the last position of the character, or -1 when it does not occur |
| UserSpec.CoffExtensionIff | nachos/userprog/UserProcess.java:640-646 | exec accepts a name exactly when it ends in ".coff" |
| UserSpec.ArgSlot | nachos/userprog/UserProcess.java:659 | pointer + i*4 in int arithmetic: an int that equals the exact sum when that fits |
| UserSpec.PaddedBuffer | nachos/userprog/UserProcess.java:532-541 | read's buffer holds the delivered bytes followed by zeros up to count |
| UserSpec.StringIn | nachos/userprog/UserProcess.java:105-118 | a string found in memory has at most maxLength bytes and no zero byte |
| UserSpec.WordIn | nachos/userprog/UserProcess.java:648-655 | none exactly when no byte can be copied; with all four copied, the decoded word |
| UserSpec.WordInside | nachos/userprog/UserProcess.java:648-655 | a word inside an image held in memory reads as the word the image holds |
| UserSpec.StringInside | nachos/userprog/UserProcess.java:105-118 | a short, terminated string inside an image held in memory reads back whole |
| UserProcess.ReadOnlyInIff | nachos/userprog/UserProcess.java:386-398 | a page is marked read-only exactly when some read-only section covers it |
| UserProcess.EagerTable | nachos/userprog/UserProcess.java:375-381 | page v is valid, has number v, and is mapped to the v-th popped free frame |
| UserProcess.EagerTableMapped | nachos/userprog/UserProcess.java:378-381 | frames popped from a stack of in-memory frames map every page inside memory |
| UserProcess.Pushed | nachos/userprog/UserProcess.java:412-414 | pushing keeps every element: the length is the sum of both |
| UserProcess.PushedKeepsAll | nachos/userprog/UserProcess.java:412-414 | the stack after pushing holds exactly the pushed values and the old ones |
| UserProcess.LoadThenUnloadRestoresFreePages | nachos/userprog/UserProcess.java:375-381 | giving back the frames that loadSections popped restores the free stack's multiset |
| UserProcess.UnloadReturnsPageNumbers | nachos/userprog/UserProcess.java:412-414 | as written, a process holding frame 5 returns 0 to the free stack instead |
| UserProcess.ShortReadPadsWithZeros | nachos/userprog/UserProcess.java:532-541 | a 3-byte read into a 10-byte request stores 7 zeros the file never supplied |
| UserProcess.ShortReadOverwrites | nachos/userprog/UserProcess.java:532-541 | after a short read, the byte just past the delivered ones becomes 0; writing only the delivered bytes would have kept it |
| UserProcess.ReadExtends | nachos/userprog/UserProcess.java:187-190 | one more page-sized copy out of memory extends the read done so far and changes no other buffer byte |
| UserProcess.WriteExtends | nachos/userprog/UserProcess.java:262-265 | one more page-sized copy into memory extends the store done so far |
| UserProcess.Install | nachos/userprog/UserProcess.java:471-479 | the file goes into the lowest empty slot, whose index is returned, and nothing else changes; -1 and no change exactly when the table is full |
| UserProcess.UserProcess.constructor | nachos/userprog/UserProcess.java:38-41 | descriptors 0 and 1 are the console, the other 14 of the 16 are free |
| UserProcess.UserProcess.ReadVirtualMemory | nachos/userprog/UserProcess.java:146-195 | returns TransferCount bytes, which are the bytes at vaddr read through the page table; no other buffer byte changes |
| UserProcess.UserProcess.ReadRemainingPages | nachos/userprog/UserProcess.java:174-194 | copies whole pages until the length is reached or the page table ends, extending the read |
| UserProcess.UserProcess.CopyNextPage | nachos/userprog/UserProcess.java:175-190 | copies one more page, or nothing exactly when that page is past the page table |
| UserProcess.UserProcess.CopyOut | nachos/userprog/UserProcess.java:187 | one arraycopy out of memory extends the read |
| UserProcess.UserProcess.FetchRun | nachos/userprog/UserProcess.java:171 | the buffer's range is replaced by the physical run, and the rest is unchanged |
| UserProcess.UserProcess.WriteVirtualMemory | nachos/userprog/UserProcess.java:223-269 | stores TransferCount bytes: memory becomes WriteSpec of those bytes at vaddr |
| UserProcess.UserProcess.WriteRemainingPages | nachos/userprog/UserProcess.java:250-268 | stores whole pages until the length is reached or the page table ends, extending the store |
| UserProcess.UserProcess.StoreNextPage | nachos/userprog/UserProcess.java:251-265 | stores one more page, or nothing exactly when that page is past the page table |
| UserProcess.UserProcess.CopyIn | nachos/userprog/UserProcess.java:247 | one arraycopy into memory extends the store |
| UserProcess.UserProcess.StoreRun | nachos/userprog/UserProcess.java:262 | the physical run is replaced by the buffer's bytes, and the rest of memory is unchanged |
| UserProcess.UserProcess.LoadSections | nachos/userprog/UserProcess.java:365-404 | fails, changing nothing, exactly when the free stack has fewer frames than pages; otherwise the page table is EagerTable of the stack, the popped frames leave it, and every page maps inside memory |
| UserProcess.UserProcess.MarkSection | nachos/userprog/UserProcess.java:391-400 | the pages of a read-only section become read-only; all other entries are unchanged |
| UserProcess.UserProcess.UnloadSections | nachos/userprog/UserProcess.java:409-416 | as written, each entry's page number, not its frame, is pushed onto the free stack |
| UserProcess.UserProcess.UnloadSectionsReturningFrames | nachos/userprog/UserProcess.java:409-416 | each entry's frame is pushed back onto the free stack |
| UserProcess.UserProcess.StringAt | nachos/userprog/UserProcess.java:105-118 | a string found at vaddr has at most maxLength bytes and no zero byte |
| UserProcess.UserProcess.ReadVirtualMemoryString | nachos/userprog/UserProcess.java:105-118 | returns the bytes before the first zero among the at most maxLength+1 bytes readable at vaddr, or none when none of them is zero |
| UserProcess.UserProcess.FindTerminator | nachos/userprog/UserProcess.java:112-117 | the scan returns exactly UntilTerminator of the bytes read |
| UserProcess.UserProcess.InstallFile | nachos/userprog/UserProcess.java:471-479 | the descriptor and table are those Install gives |
| UserProcess.UserProcess.OpenNamed | nachos/userprog/UserProcess.java:458-508 | -1 with the table unchanged when the name cannot be read or the file system refuses; otherwise the file is installed in the lowest empty slot |
| UserProcess.UserProcess.HandleCreat | nachos/userprog/UserProcess.java:458-480 | OpenNamed with creation |
| UserProcess.UserProcess.HandleOpen | nachos/userprog/UserProcess.java:485-508 | OpenNamed without creation |
| UserProcess.UserProcess.HandleClose | nachos/userprog/UserProcess.java:584-600 | -1 with no change exactly for a descriptor out of range or not open; otherwise 0, and only that slot is freed |
| UserProcess.UserProcess.Deliver | nachos/userprog/UserProcess.java:533 | the file's bytes go to the front of the buffer, and their number is returned |
| UserProcess.UserProcess.HandleRead | nachos/userprog/UserProcess.java:514-544 | -1 with memory unchanged when a check fails or the file gives nothing; otherwise the whole zero-padded buffer is written, and the number written is returned |
| UserProcess.UserProcess.HandleReadCorrected | nachos/userprog/UserProcess.java:514-544 | as HandleRead, but only the delivered bytes are written, and their count is returned |
| UserProcess.UserProcess.HandleWrite | nachos/userprog/UserProcess.java:549-579 | returns count exactly when the checks pass, all count bytes can be read, and the file accepts them all; otherwise -1 |
| UserProcess.UserProcess.PointerAt | nachos/userprog/UserProcess.java:648-655 | a word exec reads is a signed 32-bit int |
| UserProcess.UserProcess.ReadWord | nachos/userprog/UserProcess.java:648-655 | returns the word at vaddr, or none exactly when no byte there can be copied |
| UserProcess.UserProcess.HandleExec | nachos/userprog/UserProcess.java:631-660 | rejects exactly a missing name, a negative argc, a name without the .coff extension, or an unreadable argv word; otherwise argument i is the string at the first pointer plus 4i |
| UserProcess.UserProcess.ReadArgumentsAsWritten | nachos/userprog/UserProcess.java:656-660 | argc strings, each read at the first pointer plus 4i |
| UserProcess.UserProcess.HandleExecCorrected | nachos/userprog/UserProcess.java:631-660 | the same checks plus a readable argument vector; argument i is the string that word i of argv points to |
| UserProcess.UserProcess.ReadArgumentVector | nachos/userprog/UserProcess.java:656-660 | none exactly when some vector entry cannot be read; otherwise argument i is the string at entry i |
| UserProcess.UserProcess.Load | nachos/userprog/UserProcess.java:281-356 | succeeds exactly for a parsed, contiguous executable whose arguments fit a page and whose pages fit the free stack; then pages = sections + 8 + 1, the stack pointer is at the top of the stack, argv is at the last page, and the page table is EagerTable |
| UserProcess.UserProcess.CountSectionPages | nachos/userprog/UserProcess.java:299-309 | reports contiguity exactly when every section starts where the previous one ends, and then the total page count |
| UserProcess.UserProcess.ArgumentBytes | nachos/userprog/UserProcess.java:311-323 | returns argsSize: 4 bytes per pointer plus each string and its terminator |

## Left out

- Locks and concurrency (iptLock, swapLock, victimLock, pinLock, memoryLock) are not modelled. Each operation runs alone.
- VMProcess.VMProcess.RunClock: keeps the clock hand in a local variable and stores it when it stops. The source stores the hand on every step, which only another thread could observe.
- Printing, debugging output and teToString are left out.
- Coff parsing, section.loadPage, the swap file and the file system are not modelled. In their place are parameters:
  - the parsed sections;
  - a `loader` function from section and page index to page bytes;
  - a `swap` map from slot to page bytes;
  - a `fileSystem` function from name and create flag to an open file;
  - the bytes a file read delivers, and a `fileWrite` function.
- Lib.random is the `randomIndex` parameter of HandleTLBMiss.
- UserKernel.java, Processor.java, Coff.java and Lib.java are not part of this model. The page size 1024 and Lib.bytesFromInt/bytesToInt are written out from their Nachos definitions.
- TLB slots hold copies of entries. writeTLBEntry storing a reference to a page-table object is not modelled.
- The owners of other processes' frames are values (`Detached`), so a write through them does not reach their page tables.
- The section contents that UserProcess.loadSections copies into each frame are left out. The model keeps the page table it builds.
- The argument strings and pointers that load writes into the last page are only modelled as a byte image (ArgvImage, ArgvImageReadsBack). They are not written through writeVirtualMemory inside Load.
- The memory-level proof that a process whose argument page holds that image reads the arguments back is split. One lemma covers images in memory (WordInside, StringInside) and one covers the image (ArgvImageReadsBack). The two are not composed into one lemma.
- UserProcess.UserProcess.Load: on failure, says nothing about numPages, initialSP, argc and argv, which the source may leave partly updated. initialPC and initRegisters are left out.
- UserProcess.UserProcess.HandleExec: returns the request that would go to the child (file name and argument strings). Creating the child, execute, the pid, and the child and parent bookkeeping are left out.
- UserProcess.UserProcess.ReadVirtualMemory: requires every page's frame to lie inside physical memory (Mapped). The source would throw from System.arraycopy otherwise.
- UserProcess.UserProcess.WriteVirtualMemory: requires Mapped, as ReadVirtualMemory does.
- UserProcess.UserProcess.HandleRead: requires the file to deliver at most count bytes, as OpenFile.read promises.
- VMProcess.VMProcess.HandlePageFault: requires an evictable frame when no frame is free. The source's clock loop never ends otherwise.
- VMProcess.VMProcess.HandlePageFault: requires the loader to give whole pages.
- VMProcess.VMProcess.LoadSections: requires every section to lie inside numPages. The source would throw otherwise.
- VMProcess.VMProcess.LoadSections: promises the paging invariants only for a process that is ready to load (nothing loaded or swapped, an empty TLB, no frame owned by it) and for contiguous sections, which load checks before it (UserProcess.java:299-309).
- The swap file is the `swap` map from slot to page bytes: a swap write stores one page under its slot, and file offsets are not modelled.
- numPages * pageSize and argsSize are unbounded integers here, so Java int overflow in them is not modelled. `count + bufferAddress` in read and write (Add32) and `pointer + i * 4` in exec (ArgSlot) do wrap at 32 bits.
- Java Strings are modelled as the byte sequences they come from: no charset decoding. Bytes are unsigned values 0..255.
- VMProcess.unloadSections' call to super.unloadSections (VMProcess.java:109) is left out. It pushes page numbers onto UserKernel's free stack, which demand paging does not use.
- pinVirtualPage and unpinVirtualPage (VMProcess.java:359-367) are empty stubs in the source and are left out.
- restoreState and handleException dispatch are left out.
- handleHalt, handleUnlink, handleJoin, handleExit, handleSyscall, execute and initRegisters are outside the modelled core.
- The Java exceptions the source would raise are modelled as a returned failure: `None` from HandleTLBMiss for a page beyond the page table, `false` from VMProcess.UnloadSections.

## Findings

| source | as written | input that shows it | evidently intended | confidence | as-written member | corrected member |
|---|---|---|---|---|---|---|
| nachos/vm/VMProcess.java:243-246 | the new translation's frame is the victim owner's ppn field | memory full and the clock stops on a frame still owned by the free-frame placeholder (ppn -3), or on a frame whose owner was swapped out earlier (ppn -2) | the new translation maps the victim frame itself | not executed | PagingSpec.PlaceholderVictimHasNoFrame, PagingSpec.SwappedOwnerVictimHasNoFrame | VMProcess.VMProcess.HandlePageFault, PagingSpec.AsWrittenAgreesWhenSynced |
| nachos/vm/VMProcess.java:93-98 | the frame pass reads `pf.entry.vpn` for every frame | unloading while one frame is free (null owner), or is owned by the placeholder (page -3, out of range) | skip free frames and owners from outside this page table, then release swap | not executed | VMProcess.VMProcess.UnloadSections, VMProcess.UnloadFailsOnFreeFrame, VMProcess.UnloadFailsOnPlaceholder | VMProcess.VMProcess.UnloadSectionsSafe |
| nachos/userprog/UserProcess.java:412-414 | unloadSections pushes each entry's vpn onto the free-frame stack | a one-page process loaded from free stack [5] holds frame 5; unloading pushes 0 | push each entry's ppn, so the free stack gets back what loadSections popped | not executed | UserProcess.UserProcess.UnloadSections, UserProcess.UnloadReturnsPageNumbers | UserProcess.UserProcess.UnloadSectionsReturningFrames, UserProcess.LoadThenUnloadRestoresFreePages |
| nachos/userprog/UserProcess.java:532-543 | handleRead writes the whole count-byte buffer and returns the bytes written | a read of count 10 from a file with 3 bytes left writes 7 extra zeros and returns 10 | write and return only the bytes read | not executed | UserProcess.UserProcess.HandleRead, UserProcess.ShortReadPadsWithZeros, UserProcess.ShortReadOverwrites | UserProcess.UserProcess.HandleReadCorrected |
| nachos/vm/VMProcess.java:175-179 | a faulted page's translation goes only into the TLB | a miss on an invalid page, then its TLB slot is recycled before a context switch: the page is still invalid in the page table and faults again, taking another frame | the new translation also becomes the page's entry and its frame's owner | not executed | VMProcess.VMProcess.HandleTLBMiss | VMProcess.VMProcess.HandleTLBMissAndSync, VMProcess.VMProcess.CommitTranslation |
| nachos/vm/VMProcess.java:280-284 | a dirty victim is copied to swap from memory offset `toEvict.ppn * pageSize`, the owner's ppn field | memory full and the clock stops on a frame whose owner is a placeholder made dirty by a zero-filled fault (ppn -3, offset -3072), or an owner that was swapped out before (ppn -2, offset -2048): the copy starts outside memory | copy the victim frame the clock stopped on | not executed | VMProcess.VMProcess.SwapOutAsWritten, PagingSpec.DirtyPlaceholderSwapsFromOutsideMemory, PagingSpec.SwappedOwnerSwapsFromOutsideMemory | VMProcess.VMProcess.SwapOut, VMProcess.VMProcess.DetachOwner |
| nachos/userprog/UserProcess.java:655-659 | argument i is read at the first pointer plus 4i | exec with arguments "ab" and "cd" laid out as load lays them out: the second argument reads "d" | argument i is the string that word i of argv points to | not executed | UserSpec.FirstPointerPlusOffsetMisreads, UserSpec.ExecAsWrittenMisreads, UserProcess.UserProcess.HandleExec | UserProcess.UserProcess.HandleExecCorrected, UserSpec.ArgvImageReadsBack |
