# A verified model of the OS/161 paging kernel

This project models, in Dafny, the demand-paged virtual memory this OS/161 kernel adds, together with
the allocators, synchronisation primitives and scheduler code it rests on, and proves what they promise.
`dafny verify dfyconfig.toml` checks everything.

**Demand-paged memory.** `Coremap`, `PageTable`, `Segment`, `AddrSpace`, `Tlb` and `Vm` give each kernel
operation as a function on values; a failed `KASSERT`, a `panic` or an out-of-range array access is the
outcome `Panic` and ends the run. `CoremapBlocks` and `CoremapQueue` prove the frame blocks and the FIFO
list, `VmOwn` and `VmView` who owns a frame or a swap slot and what a page shows, `VmFault`,
`VmCoherence` and `VmDestroy` the parts of a fault, the TLB and the end of an address space. `VmSteps`
and `VmRun` put them together over runs of faults, loads, stores, context switches, exits and kernel
allocations. A kernel run is any such sequence without a panic, whatever the TLB holds; ownership and
statistics are proved over all of them. A flat run is a kernel run in which every user store goes through the
TLB to the page that holds its address, and the kernel writes no page's frame; faults may leave stale TLB
entries. Over these every page always shows what a flat memory would hold, and every load that goes to its
page returns it. `VmAccess` proves that the condition on stores is exact. A VM run is one in which moreover
no fault returns with a stale entry; it is a flat run in which every load goes to its page. `VmEmpty`,
`VmBytes` and `VmStored` say what the flat memory holds, `VmLayout` what follows from the events alone: the
result of every fault, the pages touched, the pages that may be written. `VmAccounts` and `VmCounts` prove the
statistics, `VmTotal` exactly when a fault panics, `VmQueue` exactly which exits break the FIFO list, and
`VmAge` that otherwise the page thrown out is the one resident longest. `VmExamples` and `VmBroken` have runs
on a machine of two frames that show what the code does not do. `CoremapTable`, `Bitmap`, `Tlb.Device` and `Pager` are the same operations as
imperative code over arrays, with the loops of the kernel, each proved to have exactly the effect of its
function.

**Kernel heap.** `Kheap` and `KheapSafety` give the sub-page allocator on pages and block numbers and
prove it safe over every sequence of calls. `KheapRefs`, `KheapRep`, `KheapSteps` and `KheapTable` are the
allocator as it works in place: page references linked into lists, free lists threaded through the free
blocks, the pool of page references. `KheapTwice` frees a block twice.

**Synchronisation.** `Semaphore` and `LockCv` are state machines in which any number of threads interleave
action by action, with the spinlocks explicit. `Hangman` is the deadlock detector, `ThreadList` the doubly
linked thread list, `Migration` the balancing of run queues.

**What the code does not do as its comments promise.** Each is stated exactly.

- Freeing the current victim after any replacement breaks the FIFO list, because a replacement does not
  clear the new victim's back link (`CoremapQueue.FreeKeepsQueueIff`, `CoremapQueue.FreeAfterRun`,
  `CoremapQueue.FreeingVictimAfterEviction`). An exit does so exactly when that victim is its own page, and a
  later replacement can then fail its assertion (`VmQueue.ExitIntactIff`, `VmBroken.ExitBreaksReplacement`).
- A replacement does not invalidate the victim's TLB entry. Unless some transfer of the fault sleeps, so
  that `thread_switch` activates the address space again, or the entry is the one the fault overwrites, it
  survives and leads to another page's frame (`VmSteps.FaultCoherentIff`, `VmExamples.StaleEntryRun`). A store
  through it writes that page (`VmAccess.StoreFollowsIff`).
- The page-table word is entered before the load (kern/vm/pagevm.c:125) and stays when the load fails
  (kern/vm/pagevm.c:154-156). The next access to the page succeeds and reads bytes that were neither stored
  nor part of the executable (`VmStored.LoadReturnsStoredIff`, `VmExamples.FailedLoadIsSeen`).
- The last page of a segment whose file part is longer than its memory is read past the end of its frame
  (`Segment.LoadsStayInFramesIff`, `Segment.LastLoadOverruns`).
- The second equation between the statistics fails by exactly the number of failed loads
  (`VmAccounts.MissWarningIff`, `VmExamples.WarningAppears`). The comment numbers the TLB reloads 3; the code
  has them at 4.
- A page reference stays marked when no page for it can be obtained, and a later `freepageref` can then
  fail its assertion (`KheapRefs.Pool.Alloc`, `KheapRefs.Pool.Release`, `KheapRefs.LeakThenFail`).
- Only the first free block is protected from being freed again. Freeing any other free block either gives
  its page back while a block of it is live or makes the page's free list a loop
  (`KheapTable.Table.SubpageKfree`, `KheapSteps.SecondFreeBreaks`, `KheapTwice.LastBlockLost`,
  `KheapTwice.ListLoops`).

Inputs from outside are parameters: how much of an ELF read arrives, whether the swap write and the page
read of a fault sleep, what `alloc_kpages` gives the heap. Address spaces are assumed page-disjoint and
without 32-bit wraparound, with a file part no longer than the memory part, as section "Program Header" of
chapter 5 of the System V ABI requires of loadable segments.

## Model

| member | source | states |
|---|---|---|
| VmRun.LoadsReturnFlatMemory | kern/vm/pagevm.c:71-183 | in every state of every flat run, a user load that goes to the page holding its address returns the byte the flat memory holds there; creation, stores and failed loads are all that changes that memory |
| VmRun.PagingIsInvisible | kern/vm/pagevm.c:71-183 | in every state of every flat run every page of every live address space, wherever it is kept, shows the flat memory's contents |
| VmRun.EveryLoadIsFlat | kern/vm/pagevm.c:71-183 | in a VM run every user load goes to the page holding its address and returns the flat memory's byte |
| VmRun.VmRunIsFlat | kern/vm/pagevm.c:159-180 | a VM run is a flat run, and all its loads go to the pages holding their addresses |
| VmAccess.StoreFollowsIff | kern/vm/vm_tlb.c:68-84 | a store through the TLB changes every page as a flat memory would, whatever byte it stores, if and only if it goes to the frame of the page holding its address, or to no page's frame when no page does |
| VmAccess.TidyStep | kern/vm/pagevm.c:71-183 | every event of a flat run keeps sizes, blocks and ownership and changes page contents only as a flat memory would, whatever the TLB holds |
| VmAccess.MirrorsLands | kern/vm/pagevm.c:159-180 | an access through an entry that agrees with the page table goes to the page holding its address |
| VmStored.LoadReturnsStoredIff | kern/vm/pagevm.c:114-157 | in every state of every flat run, a user load that goes to its page returns the last byte stored at its address, else the executable's, if and only if no failed load left that byte different from the executable and not stored to since |
| VmStored.StoredIff | kern/vm/pagevm.c:114-157 | the same of every byte of every page in every state of a flat run, resident or not |
| VmBytes.FlatIff | kern/vm/pagevm.c:114-157 | for any sequence of states and events in which a page fails to load only while it shows its image, the flat memory's byte is the stored one if and only if it is not spoiled |
| VmBytes.NothingSpoiled | kern/vm/pagevm.c:154-156 | a page without a failed load has no spoiled byte |
| VmExamples.FailedLoadIsSeen | kern/vm/pagevm.c:125-156 | a concrete run of five events: the load of a page fails, the next touch succeeds, and the byte then loaded was neither stored nor in the executable |
| VmAccess.StepKeeps | kern/vm/pagevm.c:71-183 | every event of a VM run (fault, load, store, switch, exit, kernel allocation) keeps ownership, blocks and TLB agreement, and changes page contents only as a flat memory would |
| VmRun.RunInv | kern/vm/pagevm.c:47-53 | the whole invariant, TLB agreement included, holds in every state of every VM run |
| VmRun.KernelRunSound | kern/vm/pagevm.c:47-53 | sizes, blocks, ownership and a live running space in every state of every kernel run, whatever the TLB holds |
| VmRun.OwnershipOverRuns | kern/vm/coremap.c:197-287 | in every state of every kernel run a frame is a user frame exactly when one page-table word holds it and the record names that page; a swap bit is set exactly when one word carries its offset |
| VmRun.OnlyLiveOwn | kern/vm/addrspace.c:75-101 | over every kernel run, frames and slots in use belong to live address spaces, and an exit ends its space |
| VmOwn.FrameOwnership | kern/vm/pt.c:159-222 | from the ownership invariant: frames and the words that hold them correspond one to one, both directions |
| VmOwn.SlotOwnership | kern/vm/swapfile.c:76-168 | from the ownership invariant: swap slots in use and the words that carry them correspond one to one, both directions |
| VmSteps.FaultStep | kern/vm/pagevm.c:71-183 | a fault, with any replacement it causes, leaves every other page's contents as they were and keeps sizes, blocks and ownership, whatever the TLB holds, for every fault kind, every outcome of the ELF read and every transfer that sleeps |
| VmSteps.FaultCoherentIff | kern/vm/pagevm.c:114-180 | from a TLB in agreement with the page table, a fault on a TLB miss returns with one if and only if it replaced no page, some transfer slept, or the only entry for the victim's frame was in the slot it overwrote |
| VmSteps.SoundStep | kern/vm/pagevm.c:71-183 | every event of a kernel run keeps sizes, blocks and ownership |
| VmSteps.CoherentStep | kern/vm/vm_tlb.c:34-84 | every event of a VM run keeps the TLB in agreement with the running space's page table |
| VmExamples.StaleEntryRun | kern/vm/coremap.c:231-287 | a concrete flat run of five events after which the TLB still maps a page that is in the swap file, to the frame of another page, and an access to it does not go to its page |
| VmSteps.ExitStep | kern/vm/addrspace.c:75-101 | the end of an address space keeps the invariant and all other spaces' contents |
| VmSteps.CreateStep | kern/vm/addrspace.c:232-282 | a new address space, its segments defined by the regions of the executable, is untouched, shows its segments' images and disturbs nothing |
| VmSteps.ActivateStep | kern/vm/addrspace.c:105-134 | switching address space empties the TLB and keeps the invariant |
| VmSteps.AllocKpagesStep | kern/vm/coremap.c:409-424 | a kernel allocation takes no user frame and changes no page's contents |
| VmSteps.FreeKpagesStep | kern/vm/coremap.c:430-437 | a kernel free changes no page's contents |
| VmLayout.FaultCodesExact | kern/vm/pagevm.c:81-182 | over every kernel run the result of a fault follows from the events before it: `EINVAL` for an unknown type, `EACCES` for a read-only fault, `EFAULT` if and only if no program runs, the address is in neither region and not on the stack, or its page is new, not of the stack, and the read fails or the file lacks bytes of it; 0 otherwise |
| VmLayout.UntouchedExact | kern/vm/pagevm.c:114-134 | over every kernel run a page has an empty word if and only if no fault for it happened since its space was created |
| VmLayout.AccessIsWanted | kern/vm/pagevm.c:97-115 | over every kernel run a fault is for a page if and only if the page's program runs, the address is the program's and lies on the page |
| VmLayout.LayoutOverRuns | kern/vm/addrspace.c:232-328 | over every kernel run each live address space has the segments of the regions it was last created with, and the stack |
| VmLayout.RunningExact | kern/vm/addrspace.c:105-134 | over every kernel run the running space is the one last switched to, unless it has ended |
| VmLayout.EntriesAllowExactly | kern/vm/segment.c:59-67 | in every state of every VM run a valid TLB entry is of a page of the running space, and allows stores if and only if the page's segment was defined writeable or is the stack |
| VmLayout.StoresAllowed | kern/vm/pagevm.c:175-177 | in every VM run a user store goes to a page of a segment defined writeable, or of the stack |
| VmLayout.LoadSucceedsIff | kern/vm/segment.c:224-388 | the load of a page succeeds if and only if the read reports no error and the file has every byte of the file part that is on the page |
| VmLayout.LoadedExact | kern/vm/segment.c:224-388 | after a load, failed or not, each byte of the frame is the file's if the file part has one there, the file is long enough and the read got so far, and 0 otherwise |
| VmLayout.LoadIsEmptyIff | kern/vm/segment.c:258-347 | a page has nothing to read if and only if no byte of the file part is on it |
| VmFault.MakeResidentKeeps | kern/vm/pagevm.c:114-157 | after the three ways of making a page resident, the page holds its frame, shows its image or its swapped contents, and every other page shows what it showed |
| VmFault.FirstTouchKeeps | kern/vm/segment.c:224-388 | the first touch of a page gives it a frame no other page has, with the segment's image in it |
| VmFault.BringBackKeeps | kern/vm/segment.c:406-424 | a swapped page comes back with the contents of its slot, which is freed |
| VmView.EvictReady | kern/vm/coremap.c:231-287 | a replacement saves the victim's contents in a slot that was free, tags its word and leaves the frame without an owner; no page's contents change |
| VmView.AllocReady | kern/vm/coremap.c:168-291 | a frame for a user page, free, stolen or taken from a victim, is one no page shows, and every page shows what it showed |
| VmCoherence.ReturnCoherentIff | kern/vm/pagevm.c:159-180 | the condition of `VmSteps.FaultCoherentIff` for the part of a fault after its page is found: exactly then every entry agrees with the page table and no page is in the TLB twice; which entries then allow stores, `VmLayout.EntriesAllowExactly` says from the flags of the regions |
| VmDestroy.DestroyKeeps | kern/vm/addrspace.c:75-101 | destroying a space keeps ownership and blocks and leaves the words and contents of all other spaces intact |
| VmDestroy.DestroyLeavesNothing | kern/vm/pt.c:179-199 | afterwards no frame and no swap slot belongs to the destroyed space |
| VmAccounts.CountersBalance | kern/vm/vmstats.c:29-34 | over every kernel run: swap writes = swap-ins + slots freed + slots in use; misses = free + replace; disk = ELF + swap; reloads + zeroed + disk = misses + the number of events in which a load from the executable failed |
| VmAccounts.MissWarningIff | kern/vm/vmstats.c:73-95 | over every kernel run the shutdown warning about misses appears if and only if in some event a load from the executable failed |
| VmCounts.CountersExact | kern/vm/vmstats.c:52-66 | over every kernel run each of the ten counters is the number of times its event happened: faults that returned, by whether the slot about to be written was in use and not flushed by a sleep; switches and sleeps; faults for a resident page; for a new page of the stack or without file bytes; for a new page with file bytes; for a swapped page; and faults for a page not in memory with no frame free |
| VmCounts.NeedsVictimIff | kern/vm/coremap.c:181-238 | a page is replaced if and only if every frame has been handed out and none given back |
| VmCounts.VictimIsMisses | kern/vm/vm_tlb.c:21-29 | over every kernel run the slot the next fault writes is the number of misses so far, modulo 64 |
| VmExamples.WarningAppears | kern/vm/vmstats.c:73-95 | a concrete run of three events, the last a failed load, after which the warning appears |
| VmTotal.FaultPanicsIff | kern/vm/pagevm.c:71-183 | intact list or not, a fault panics if and only if it must replace a page and the victim has no successor or the swap file is full |
| VmTotal.EvictPanicsIff | kern/vm/coremap.c:231-287 | intact list or not, a replacement panics if and only if the victim has no successor or the swap file is full; its lookups never fail |
| VmTotal.QueueRotates | kern/vm/coremap.c:270-287 | with an intact list the victim has a successor exactly when two frames are queued |
| VmQueue.FaultPanicsOverRuns | kern/vm/pagevm.c:71-183 | `VmTotal.FaultPanicsIff` in every state of every kernel run |
| VmAge.QueueOverRuns | kern/vm/coremap.c:208-352 | over every kernel run in which no exit is of the space of a victim with a stale back link, replacements included, the links hold a list of exactly the user frames, in the order in which they got their pages |
| VmAge.SafeRunFaults | kern/vm/pagevm.c:71-183 | in such a run a fault panics if and only if it must replace a page while fewer than two frames are queued or the swap file is full |
| VmAge.VictimIsEldest | kern/vm/coremap.c:231-287 | in such a run the victim is the user frame that has had its page longest |
| VmAge.EldestIsReplaced | kern/vm/coremap.c:231-287 | in such a run a page that loses its frame in a fault has been in memory longer than every other page there |
| VmQueue.FreeIntactIff | kern/vm/coremap.c:297-352 | with a list in place, a free passes its assertions and leaves a list if and only if its frame is not the victim or the victim's back link is clear |
| VmQueue.ExitIntactIff | kern/vm/addrspace.c:75-101 | with a list in place, an exit passes every assertion with a list after each page it frees if and only if the victim is not a page of that space with its back link set |
| VmBroken.ExitBreaksReplacement | kern/vm/coremap.c:270-336 | a concrete run of ten events: the exit of a space whose page is the victim after a replacement leaves no list, and when two pages fill memory again a third fails the new-victim assertion with both frames in use and room in the swap file |
| VmTotal.ExitCannotPanic | kern/vm/addrspace.c:75-101 | with an intact list, destroying a space passes every assertion on the way and keeps the list intact |
| VmTotal.FullListUntilReplacement | kern/vm/coremap.c:297-352 | in every kernel run, until the first replacement the user frames form a full doubly linked list, whatever is freed |
| VmTotal.NoPanicBeforeReplacement | kern/vm/coremap.c:297-352 | in every kernel run, until the first replacement no event panics that hardware and callers can cause |
| Pager.Manager.constructor | kern/vm/pagevm.c:47-53 | the memory manager starts in the boot state |
| Pager.Manager.HandleFault | kern/vm/pagevm.c:71-183 | `vm_fault` in place has exactly the effect and result of the fault function, panics and the flushes of sleeping transfers included |
| Pager.Manager.Reside | kern/vm/pagevm.c:114-157 | the three cases of a fault in place |
| Pager.Manager.FirstTouchPage | kern/vm/pagevm.c:120-134 | the empty case in place: frame, contents, page-table word, counters |
| Pager.Manager.BringBackPage | kern/vm/segment.c:406-424 | the swapped case in place |
| Pager.Manager.InstallEntry | kern/vm/pagevm.c:159-180 | the miss is counted as free or replace by the slot about to be overwritten, and the entry written |
| Pager.Manager.LoadSegmentPage | kern/vm/segment.c:224-388 | reading a page of a segment in place: the right bytes, the right counter, failure on a short read, a flush if the read slept |
| Pager.Manager.FindLoad | kern/vm/segment.c:250-347 | the branches that assign destination, length and file offset compute the load of that page |
| Pager.Manager.PopulateFrame | kern/vm/pagevm.c:127-157 | a stack page is zeroed and counted, any other page is loaded |
| Pager.Manager.AllocUser | kern/vm/coremap.c:168-291 | `allocate_user_page` in place: free frame, stolen frame or replacement |
| Pager.Manager.EvictVictim | kern/vm/coremap.c:231-287 | the replacement in place: victim looked up, written out, word tagged, list rotated |
| Pager.Manager.SwapOut | kern/vm/swapfile.c:76-108 | the page goes to the least free slot, which is marked, and a sleeping write flushes the TLB; panics exactly when no slot is free |
| Pager.Manager.SwapIn | kern/vm/swapfile.c:115-146 | the slot's contents come back, the slot is freed, and a sleeping read flushes the TLB; panics exactly when the slot is not marked or the offset is bad |
| Pager.Manager.Transfer | kern/thread/thread.c:716-722 | a thread that slept in a transfer finds the TLB invalidated, and the invalidation counted |
| Pager.Manager.Activate | kern/vm/addrspace.c:105-134 | the TLB is invalidated and counted |
| Pager.Manager.AddPageWord | kern/vm/pt.c:159-174 | a word is set only over an empty or swapped one |
| Pager.Manager.ClearContent | kern/vm/pt.c:179-199 | the loop over a page table frees each frame and each slot it holds |
| Pager.Manager.DestroySpace | kern/vm/addrspace.c:75-101 | `as_destroy` in place has exactly the effect of its function |
| Pager.Manager.Increment | kern/vm/vmstats.c:55-66 | one counter goes up by one |
| CoremapBlocks.AllocateKernelIsFirstFit | kern/vm/coremap.c:56-135 | the lowest run of free frames is taken, else memory never handed out; 0 if and only if neither exists; the frames become one new block and the partition into blocks holds |
| CoremapBlocks.FreeKernelFreesItsBlock | kern/vm/coremap.c:141-160 | freeing a block's address frees exactly the frames its allocation returned and no others |
| CoremapBlocks.BlocksDisjoint | kern/vm/coremap.c:56-160 | blocks marked by nonzero sizes never overlap |
| CoremapBlocks.TakeUserFrameBlocks | kern/vm/coremap.c:181-188 | a user frame comes from the first free frame or from unused memory, and none is given only when there is neither |
| CoremapBlocks.FreeUserBlocks | kern/vm/coremap.c:297-352 | freeing a user frame frees that one block |
| CoremapQueue.EnqueueAppends | kern/vm/coremap.c:208-229 | a page that finds a frame joins the FIFO list at its end; no assertion fires |
| CoremapQueue.EvictRotates | kern/vm/coremap.c:270-287 | a replacement succeeds if and only if two frames are queued, and moves the head to the tail; the new head's back link is then stale |
| CoremapQueue.FreeKeepsQueueIff | kern/vm/coremap.c:297-352 | a free removes exactly its frame and keeps the order of the rest if and only if the frame is not the head or the head's back link is clear |
| CoremapQueue.FifoRun | kern/vm/coremap.c:208-352 | over every run with frees of other frames than a stale victim, following the links from the victim visits every user frame once, in order of latest allocation, and ends at the last allocated frame |
| CoremapQueue.VictimIsOldest | kern/vm/coremap.c:231-287 | the victim is always the page resident longest |
| CoremapQueue.FreeAfterRun | kern/vm/coremap.c:297-352 | after such a run, freeing a user frame leaves a list if and only if it is not the victim after some replacement |
| CoremapQueue.OwnersOverRuns | kern/vm/coremap.c:140-158 | after any orderly calls a frame has an owner recorded if and only if it is a user frame |
| CoremapQueue.FreeingVictimAfterEviction | kern/vm/coremap.c:313-336 | a concrete run of four calls after which no list exists |
| CoremapQueue.KernelAllocKeepsQueue | kern/vm/coremap.c:110-135 | kernel allocations do not touch the list |
| CoremapQueue.KernelFreeKeepsQueue | kern/vm/coremap.c:141-160 | kernel frees do not touch the list |
| CoremapTable.Table.constructor | kern/vm/coremap.c:359-390 | all frames untracked, the list empty |
| CoremapTable.Table.AllocateFreePages | kern/vm/coremap.c:56-104 | the scan and the marking loops do what the first-fit function says |
| CoremapTable.Table.ScanFree | kern/vm/coremap.c:68-79 | the scan finds the lowest run of free frames, or none |
| CoremapTable.Table.StealMem | kern/arch/mips/vm/ram.c:94-110 | gives frames the boot-time allocator has left: no block holds any of them, none is frame 0, all stop being available, the others stay; 0 if and only if fewer than asked for are left |
| CoremapBlocks.StealIsNew | kern/arch/mips/vm/ram.c:94-110 | the same of the function, from the coremap invariant, which it keeps |
| CoremapTable.Table.AllocateKernelPages | kern/vm/coremap.c:110-135 | allocation for the kernel in place |
| CoremapTable.Table.FreePages | kern/vm/coremap.c:141-160 | the freeing loop in place |
| CoremapTable.Table.FreeKernelPages | kern/vm/coremap.c:430-437 | `free_kpages` frees as many frames as its entry records |
| CoremapTable.Table.TakeFrame | kern/vm/coremap.c:181-188 | obtaining a frame for a user page in place |
| CoremapTable.Table.Append | kern/vm/coremap.c:197-229 | recording the owner and linking the frame at the tail in place |
| CoremapTable.Table.Replace | kern/vm/coremap.c:270-287 | relinking the victim at the tail in place |
| CoremapTable.Table.FreePageUser | kern/vm/coremap.c:297-352 | taking a user frame off the list in place, assertions included |
| Bitmap.Map.constructor | kern/lib/bitmap.c:62-96 | an empty set; the padding bits of the last byte are set |
| Bitmap.Map.Alloc | kern/lib/bitmap.c:118-141 | adds the least free index below the size; none if and only if all are taken; the internal assertion is unreachable |
| Bitmap.Map.Mark | kern/lib/bitmap.c:169-180 | adds an index; fails if and only if it is out of range or present |
| Bitmap.Map.Unmark | kern/lib/bitmap.c:188-199 | removes an index; fails if and only if it is absent |
| Bitmap.Map.IsSet | kern/lib/bitmap.c:208-216 | membership, padding bits always set |
| PageTable.TagsAreExact | kern/vm/pt.c:205-253 | empty, resident and swapped words never coincide, and a tagged offset gives the offset back |
| Segment.DemandIsEager | kern/vm/segment.c:224-388 | each page loaded on demand equals that page of the eager image (file bytes, then zeros) for any base alignment, and its load stays inside the frame |
| Segment.ReadsPartitionFile | kern/vm/segment.c:224-388 | every byte of the file part is read by exactly one page, and no byte beyond it by any |
| Segment.ReadOnce | kern/vm/segment.c:224-388 | a page reads a file byte exactly when the byte's address is on the page |
| Segment.LoadsStayInFramesIff | kern/vm/segment.c:258-347 | all loads of a segment stay inside their frames if and only if it has one page or its file part ends within its pages |
| Segment.LastLoadOverruns | kern/vm/segment.c:286-314 | a concrete segment whose last load is two frames long |
| Segment.RegionPagesExact | kern/vm/addrspace.c:246-248 | the page count covers the region exactly: every address is on a page and the last page is needed |
| AddrSpace.FaultAddressIsFound | kern/vm/addrspace.c:332-424 | an accepted fault address has an in-range index, and the lookup by page address finds the same segment and page |
| AddrSpace.FindSegmentIsExact | kern/vm/addrspace.c:332-377 | the lookup by address gives a segment if and only if the address is one of the segment's, from its base to the end of its memory size |
| AddrSpace.NewSpaceWfIff | kern/vm/addrspace.c:232-328 | a new address space is well-formed if and only if its regions have no file part longer than their memory, end below the stack and share no page |
| AddrSpace.CoarseIsExact | kern/vm/addrspace.c:381-424 | the lookup by page address succeeds if and only if some segment has a page there |
| AddrSpace.PageAddrInjective | kern/vm/pt.c:28-45 | a page address belongs to one page of one segment |
| AddrSpace.StackIsWf | kern/vm/addrspace.c:304-328 | the stack segment lies below the user limit |
| Tlb.ValidAreRecent | kern/vm/vm_tlb.c:21-84 | after any sequence of installs and invalidations a mapping is in the TLB if and only if it is among the last 64 installed since the last invalidation |
| Tlb.RecentRun | kern/vm/vm_tlb.c:21-84 | slot by slot, the TLB holds the most recent installs in round-robin order |
| Tlb.RecentWrite | kern/vm/vm_tlb.c:68-84 | a write replaces a valid entry exactly when 64 mappings were installed since the last invalidation |
| Tlb.VictimRun | kern/vm/vm_tlb.c:21-40 | the round-robin position advances by one with every install and with nothing else |
| Tlb.Device.InvalidateEntries | kern/vm/vm_tlb.c:34-40 | every slot becomes invalid, the position stays |
| Tlb.Device.WriteEntry | kern/vm/vm_tlb.c:68-84 | the entry goes in the victim slot and the position advances |
| KheapSafety.HeapRun | kern/vm/kmalloc.c:873-1160 | over every sequence of allocations and frees of live blocks the heap is sound, the live blocks are exactly those handed out and not given back, and none is handed out twice |
| KheapSafety.OutstandingApart | kern/vm/kmalloc.c:873-1018 | two blocks held at the same time never overlap |
| KheapSafety.OutstandingFits | kern/vm/kmalloc.c:851-867 | a block held is inside its page, aligned to its size and at least as large as the request |
| KheapSafety.NothingOutstanding | kern/vm/kmalloc.c:1024-1160 | when everything has been given back, no page is left in the heap |
| KheapSafety.MallocKeeps | kern/vm/kmalloc.c:873-1018 | an allocation makes exactly one block live, of the right type, or fails because no page has room and none can be had |
| KheapSafety.FreeKeeps | kern/vm/kmalloc.c:1024-1160 | a free ends exactly one block, and its page goes back if and only if no other block of it is live |
| KheapSafety.FreeUndoesMalloc | kern/vm/kmalloc.c:873-1160 | freeing the block just allocated gives back exactly the heap there was, lists in order, and the page if and only if it was new |
| KheapSafety.MallocUndoesFree | kern/vm/kmalloc.c:873-1160 | the last block freed is the first handed out again, and that gives back exactly the heap there was |
| Kheap.TypeFor | kern/vm/kmalloc.c:851-867 | the smallest block size that fits; none if and only if the request exceeds 2048 |
| Kheap.FirstWithRoom | kern/vm/kmalloc.c:914-920 | the first page in list order with a free block; none if and only if no listed page has one |
| Kheap.BlockInPage | kern/vm/kmalloc.c:873-1018 | a block lies inside its page and its address is a multiple of its size |
| Kheap.BlocksApart | kern/vm/kmalloc.c:873-1018 | different live blocks do not overlap |
| KheapTable.Table.constructor | kern/vm/kmalloc.c:200-212 | the empty heap |
| KheapTable.Table.SubpageKmalloc | kern/vm/kmalloc.c:873-1018 | in place, the block the allocation function gives, or none because no page has room and no page or reference could be had, in which case the page obtained goes back; a pointer given is to a live block, so it may be freed |
| KheapTable.ServedIsLive | kern/vm/kmalloc.c:922-941 | a pointer handed out is to the start of a live block of the right size |
| KheapRep.BlockOfAddr | kern/vm/kmalloc.c:1092-1097 | the page and number computed from a block's address are the block's own |
| KheapTable.Table.FindRoom | kern/vm/kmalloc.c:914-920 | the list search finds the first page of the size with a free block |
| KheapTable.Table.TakeBlock | kern/vm/kmalloc.c:922-941 | the first free block is unlinked; the assertions on the way hold |
| KheapTable.Table.LinkBlocks | kern/vm/kmalloc.c:998-1005 | every block of a fresh page is linked to the block before it |
| KheapTable.Table.BuildPage | kern/vm/kmalloc.c:989-1014 | a fresh page with all blocks free joins the front of both lists |
| KheapTable.Table.SubpageKfree | kern/vm/kmalloc.c:1024-1160 | in place, for any pointer: not ours if and only if on no heap page; fatal if and only if it points into a block, at the first free block of its page, or frees the last block of a page whose reference the pool cannot release; otherwise the heap the free function gives if the block was live or its page goes back, else a page whose free list leads from the block back to it |
| KheapSteps.SecondFreeBreaks | kern/vm/kmalloc.c:1111-1138 | a free block, not the first, put on its page's free list again makes the words lead from it along the list back to it, and no set of free blocks has these words and this count |
| KheapTwice.LastBlockLost | kern/vm/kmalloc.c:1111-1150 | of four blocks three are freed and then the first of them again: the page goes back while the fourth block is live |
| KheapTwice.ListLoops | kern/vm/kmalloc.c:1111-1138 | of four blocks two are freed and then the first of them again: each of the two free blocks leads to the other |
| KheapTable.Table.FindPage | kern/vm/kmalloc.c:1072-1084 | the list search finds the page the pointer is on, if any |
| KheapTable.Table.PutBlock | kern/vm/kmalloc.c:1108-1138 | nothing outside the block changes; the assertion fires if and only if it is the first free block; a live block becomes the first free one of its page, a free one spoils the list |
| KheapTable.Table.Unlink | kern/vm/kmalloc.c:822-845 | a page leaves one list, whose other pages stay in order; other lists are not touched |
| KheapTable.Table.RemoveLists | kern/vm/kmalloc.c:822-845 | a page leaves both its lists, whatever its own free list is |
| KheapTable.Table.Kmalloc | kern/vm/kmalloc.c:1169-1206 | requests of 2048 bytes and more get the least number of whole pages that holds them and leave the heap alone, smaller ones a live block |
| KheapTable.Table.Kfree | kern/vm/kmalloc.c:1211-1223 | for any pointer: what is given back to the frame allocator is the page of a last block, or the pointer itself when it is on no heap page, and fatal exactly where `subpage_kfree` is or when such a pointer is not page-aligned; null does nothing |
| KheapTable.Table.OwnerStore | kern/vm/kmalloc.c:473-568 | a write inside a live block disturbs no free list |
| KheapTable.Table.CheckSubpage | kern/vm/kmalloc.c:493-568 | the page checker finds nothing wrong with any heap page, and its walk along the free list ends |
| KheapRefs.Pool.Alloc | kern/vm/kmalloc.c:256-298 | takes the least unused reference; fails if and only if all are used or the page it lies on is missing and cannot be had, and in that case leaves it marked |
| KheapRefs.Pool.Release | kern/vm/kmalloc.c:303-337 | frees a reference; the assertions hold if and only if it is in use on an obtained page and no earlier missing page has marks |
| KheapRefs.LeakThenFail | kern/vm/kmalloc.c:256-337 | 256 allocations without a page, one with, and the release of what it gave fails |
| Semaphore.NoLostWakeup | kern/thread/synch.c:88-135 | under every interleaving the count is the initial one plus increments less decrements, no assertion fires, and while a thread sleeps the count is at most the number of woken threads that have not rechecked, plus one while the spinlock's holder is about to take or to wake; so with the spinlock free a positive count means a woken thread |
| Semaphore.NeverStuck | kern/thread/thread.c:1004-1047 | if the count is positive and some thread is inside `P` or `V`, some thread can act |
| Semaphore.CountExact | kern/thread/synch.c:88-135 | under every interleaving, with the spinlock free the count is the initial one plus the calls of `V` that returned less the calls of `P` that returned |
| Semaphore.ReturnsCounted | kern/thread/synch.c:88-135 | a call of `P` that returned took one unit and a call of `V` that returned added one |
| Semaphore.WakesOldest | kern/thread/thread.c:1004-1047 | under every interleaving `V` wakes the thread that has slept longest |
| Semaphore.OldestFirst | kern/thread/thread.c:1004-1047 | a channel whose threads join at the end and leave at the front lists them by the time they joined |
| Semaphore.GoKeeps | kern/thread/synch.c:88-135 | every action of every thread keeps the invariant and passes its assertion |
| Semaphore.WakeKeeps | kern/thread/thread.c:1023-1047 | waking moves the first sleeper to the threads that will recheck |
| LockCv.MutualExclusion | kern/thread/synch.c:195-251 | under every interleaving the semaphore count plus the threads with its unit is one, at most one thread owns the lock, the owner-is-NULL assertion never fires, and the others fire exactly on misuse |
| LockCv.NeverStuck | kern/thread/synch.c:195-384 | under every interleaving no thread can act if and only if every thread is outside lock code, asleep on the condition variable or asleep for the lock; and if one sleeps for the lock, its owner is outside lock code with it |
| LockCv.SignalFindsWaiters | kern/thread/synch.c:326-384 | whenever a thread is about to wake waiters, the channel holds exactly the threads that gave up the lock in `cv_wait` and have not been woken; `LockCv.WakesExactly` says which of them are then woken |
| LockCv.WakesExactly | kern/thread/synch.c:342-384 | under every interleaving a call of `cv_signal` wakes exactly the first of the waiters it finds and a call of `cv_broadcast` all of them; the others sleep on in their order |
| LockCv.FirstWaitedLongest | kern/thread/thread.c:1004-1080 | under every interleaving the waiters are listed by the time they went to sleep, so a signal wakes the one that has waited longest |
| LockCv.ReturnsExact | kern/thread/synch.c:195-384 | under every interleaving a thread back from `lock_acquire`, `cv_wait`, `cv_signal` or `cv_broadcast` owns the lock; one back from `lock_release`, or that has called nothing, does not |
| LockCv.CallsFollowed | kern/thread/synch.c:195-384 | at every point a thread is in the code of its last call |
| LockCv.WakesFirst | kern/thread/thread.c:1023-1047 | waking moves the first waiter and no other thread |
| LockCv.OnlyWakingRemoves | kern/thread/thread.c:1052-1080 | a waiter leaves the channel only by being its first and made runnable |
| LockCv.GoKeeps | kern/thread/synch.c:195-276 | every action keeps the invariant, and an assertion fails if and only if the caller acquires a lock it holds or uses one it does not |
| LockCv.SleepKeeps | kern/thread/thread.c:604-616 | going to sleep puts the thread on the channel while the channel's spinlock is held |
| Hangman.DeadlockExact | kern/thread/hangman.c:50-129 | over every sequence of calls, with holders and waiters as the calls say: no circular wait exists, a wait is refused if and only if the actor already waits, and it reports a deadlock if and only if it would close a circle of actors each waiting for a lock the next one holds |
| Hangman.HistoryExact | kern/thread/hangman.c:109-182 | over every sequence of calls the recorded holder of a lock and the recorded wait of an actor are those of the last calls about them |
| Hangman.PanicsExact | kern/thread/hangman.c:131-182 | over every sequence of calls an acquire passes its assertions if and only if by the calls before it the actor waits for the lock and nobody holds it, a release if and only if the actor holds the lock and waits for nothing; calls about the detector's own lock always pass |
| Hangman.CycleIsCircle | kern/thread/hangman.c:50-67 | a cycle of the records is a circle of actors each waiting for a lock the next one holds |
| Hangman.WaitCloses | kern/thread/hangman.c:109-129 | a new wait edge closes a cycle if and only if the walk from the lock's holder reaches the waiter |
| Hangman.StepKeeps | kern/thread/hangman.c:109-182 | waiting, acquiring and releasing keep the graph acyclic |
| Hangman.Detector.Check | kern/thread/hangman.c:50-67 | the walk ends and finds the target if and only if it is reachable |
| Hangman.Detector.Wait | kern/thread/hangman.c:109-129 | `hangman_wait` in place: the panics, the deadlock report and the new edge |
| Hangman.Detector.Acquire | kern/thread/hangman.c:131-157 | `hangman_acquire` in place: the assertions, the actor recorded as holder and its wait ended |
| Hangman.Detector.Release | kern/thread/hangman.c:159-182 | `hangman_release` in place |
| ThreadList.List.constructor | kern/thread/threadlist.c:60-72 | the empty list between its bookends |
| ThreadList.List.IsEmpty | kern/thread/threadlist.c:91-97 | true exactly for the empty list |
| ThreadList.List.InsertAfterNode | kern/thread/threadlist.c:105-120 | all links follow the sequence with the node inserted after its place |
| ThreadList.List.InsertBeforeNode | kern/thread/threadlist.c:125-140 | all links follow the sequence with the node inserted before its place |
| ThreadList.List.RemoveNode | kern/thread/threadlist.c:145-157 | all links follow the sequence without the node, whose own links are cleared |
| ThreadList.List.AddHead | kern/thread/threadlist.c:162-170 | puts the thread in front |
| ThreadList.List.AddTail | kern/thread/threadlist.c:172-180 | puts the thread at the end |
| ThreadList.List.RemHead | kern/thread/threadlist.c:182-198 | takes the first thread; nothing if and only if the list is empty |
| ThreadList.List.RemTail | kern/thread/threadlist.c:200-216 | takes the last thread; nothing if and only if the list is empty |
| ThreadList.List.InsertAfter | kern/thread/threadlist.c:218-224 | inserts right after a thread on the list |
| ThreadList.List.InsertBefore | kern/thread/threadlist.c:226-232 | inserts right before a thread on the list |
| ThreadList.List.Remove | kern/thread/threadlist.c:234-240 | takes a thread out, the rest in order |
| ThreadList.List.Forward | kern/include/threadlist.h:94-97 | visits exactly the listed threads in order, as many as the count says |
| ThreadList.List.Backward | kern/include/threadlist.h:99-102 | visits them in the reverse order |
| Migration.Cpus.ConsiderMigration | kern/thread/thread.c:852-955 | no thread is lost or duplicated, the current thread stays, and for the fair share, the least number per processor with room for all threads there are: no other queue grows past the larger of its old length and the share, each keeps its order, and this queue keeps exactly its share and possibly the current thread |
| Migration.Cpus.FillQueue | kern/thread/thread.c:892-935 | the placement loop always finds a victim to take and skips the current thread |
| Migration.Cpus.PlaceVictims | kern/thread/thread.c:887-937 | every victim is placed, except the current thread |
| Migration.Cpus.TakeVictims | kern/thread/thread.c:878-885 | victims are the end of this queue, in order |
| Migration.Cpus.CountThreads | kern/thread/thread.c:861-871 | the length of this queue and the number of threads on all queues |
| Migration.TotalCounts | kern/thread/thread.c:861-871 | the lengths of the queues add up to the number of threads on them |
| Migration.ShareIsFair | kern/thread/thread.c:873-876 | the share computed is the least number per processor with which there is room for all threads |
| Migration.FairIsUnique | kern/thread/thread.c:873-876 | there is only one such number |
| Migration.Cpus.PutBack | kern/thread/thread.c:945-951 | leftovers join the end of this queue |
| Migration.RoomEnough | kern/thread/thread.c:873-878 | since shares round up, the other queues have room for everything above this one's share |

## Left out

- Interleavings inside the memory manager: faults, exits and kernel allocations are single steps, although
  the code drops its locks inside them.
- VmRun.PagingIsInvisible: runs with a store that goes to another page than the one holding its address are
  left out, because such a store changes that page; `VmAccess.StoreFollowsIff` says that these are exactly
  the stores that do.
- VmAge.QueueOverRuns: exits of the space of a victim with a stale back link are not in its runs, because they
  break the list; `VmQueue.ExitIntactIff` says that exactly those do.
- KheapTable.Table.SubpageKfree: after a second free that spoils a page's free list, what later calls do is
  not modelled.
- Migration.Cpus.ConsiderMigration: other processors do not act during the call; interprocessor
  interrupts to idle processors are not modelled.
- KheapRefs.Pool.Alloc: the 32-bit in-use words are kept as one flag per reference.
- Pager.Manager.DestroySpace: page tables and address spaces are values in a map of the manager, not
  objects of their own, so aliasing between address spaces is not captured.
- Migration.Cpus.TakeVictims: run queues are sequences; that the linked list implements a sequence is
  proved in `ThreadList`.
- Duplicating address spaces (`as_copy`, `seg_copy`, `pt_copy`): the copy functions have reversed
  arguments and tests, so what they mean to do is not what they do.
- The byte swapping, VFS, devices, console, system calls, process table, `array.c`, bootstrap and shutdown:
  plumbing that would add only easy members.
- Machine-dependent code (register-level TLB access, context switch, interrupts) and the disk: transfers to
  and from the swap file are complete.
- Counter and size overflow at 32 bits, except in the page-table index, where the unsigned subtraction is
  modelled.
- Semaphore use from interrupt handlers, and the variant of the lock without a semaphore, which is not
  compiled in.
- The guard-band, label and `0xdeadbeef` checking modes of `kmalloc`, which are switched off, and the
  whole-heap checker.
