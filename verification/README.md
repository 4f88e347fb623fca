# A verified model of the simulated kernel

This project models, in Dafny 4.11, the hard core of a teaching kernel that runs
processes on simulated CPUs: demand paging with swap over a five-level page table, the
clock barrier that keeps CPUs and loader in step, the multi-level-queue scheduler, and the
allocators for user regions and kernel cache pools. It follows the configuration with
`MM64` and `MLQ_SCHED` (include/os-cfg.h:14-30).

`dafny verify dfyconfig.toml` checks everything. The files, bottom up:

- `Collections.dfy`, `CNumbers.dfy`: optional values and lists without duplicates; 64-bit sums and casts to `int`.
- `Word64.dfy`, `RadixTree.dfy`, `PagePath.dfy`, `PageTable.dfy`: page-table entries bit by
  bit, the five-level tree as linked tables, the walk of a page as the digits of its number,
  and the walk with its statistics as a class.
- `Device.dfy`, `Memphy.dfy`: a memory device as a value, and in place as a byte array with
  its free and used lists.
- `Paging.dfy`: `pg_getpage`, FIFO replacement, swapping and mapping as functions on one
  value that holds both devices, the entries of all page tables and all FIFO lists.
- `Regions.dfy`, `VmArea.dfy`: the first-fit allocator of virtual regions and the area list.
- `System.dfy`, `Runs.dfy`, `FrameAccounts.dfy`, `Isolation.dfy`, `Copy.dfy`, `Calls.dfy`: the
  library calls as atomic steps of a system, runs of such steps by any processes, where all
  frames are, what such runs can never read, what one round of the copy loop does, and what
  each call does, said without its step.
- `LibMemSteps.dfy`, `LibMem.dfy`: the memory routines in place, on objects with the fields
  of the C structures; each is proved to take exactly the step defined in `System.dfy`, and a
  run of calls on the objects of all spaces to take exactly the run (`LibMem.RunCalls`).
- `Scheduler.dfy`, `RunQueue.dfy`, `Dispatch.dfy`: the scheduler as a value, in place on
  array queues, and with the CPUs and the loader as its clients.
- `Timer.dfy`: the barrier as a state machine whose steps are the critical sections.

The main results: paging with swap refines a flat byte memory per address space over every
run (`MemoryRuns.RunRefinesFlat`, `MemoryRuns.ReadYourWrites`); no byte leaks from one space
to another (`Isolation.NothingLeaks`); no frame ever has two owners
(`MemoryRuns.FrameOwnership`) or gets lost (`FrameAccounts.NoFrameLost`); the radix tree
refines a flat map and its statistics are exact (`PageTables.StoreRefines`,
`PagePaths.NeededBlocks`); the barrier is lockstep, always opens and ends (`Timer.Lockstep`,
`Timer.BarrierProgress`, `Timer.TimerLeaves`); every ready process is dispatched within a
stated number of calls (`Mlq.BoundedWaiting`); no process is lost or run twice
(`Dispatch.PlacementAndExclusion`); regions tile the areas (`Regions.RunConserves`,
`Calls.RunTiled`); pool slots are disjoint and never fault (`MemoryRuns.PoolSlots`,
`MemoryRuns.KernelAccessNeverFaults`).

Where the code does less than it seems to promise, the model follows the code:

- The index split rejects an address whose top seven bits are neither all 0 nor all 1, but
  the walk ignores the rejection and goes on with indices that were never set, so nothing
  holds of rejected pages; and the accepted upper half aliases the lower
  (`Word64.UpperHalfAliases`, `Word64.SameIndicesIff`). Page numbers stay below 2^45.
- The frame field has 13 bits and the swap field 21: an entry decodes to what was stored
  exactly if the number fits (`Word64.FpnFits`, `Word64.SwapOffsetFits`).
- `init_memphy` formats with 256-byte pages although frames are addressed at 4096 bytes; the
  frames then fit no device that has any (`Memphys.WhichFormatFits`). The format takes its page
  size as a parameter, and the system is set up with 4096.
- `vm_map_ram` returns an unsigned number that is compared with 0, so a growth whose mapping
  failed is not undone. The pages of a growth are mapped if and only if RAM has enough free
  frames, and the call succeeds either way (`MemoryRuns.GrowthMapsIff`); start-up with too few
  frames is a case without any (`MemoryRuns.GrantedUnmapped`). They are mapped on first touch.
- `__alloc` over a live region loses it, and it passes the size and the old break through an
  `int`: the tiling survives if and only if the slot held no live bytes and the numbers fit,
  but for one accident past the end of 64 bits (`Regions.AllocConserves`). Below 2^31 they fit
  (`Regions.SmallNumbersFit`). The tiling is lost by two allocations into one slot
  (`Regions.OverwriteLoses`) and by three billion bytes and then a page
  (`Regions.LargeBreakLoses`).
- An eviction that finds swap full has already unlinked its victim, which stays present: the
  FIFO list is exactly the present pages if and only if that never happened
  (`Paging.FifoReplacement`), and such a page never leaves its frame again
  (`MemoryRuns.StuckForever`). One frame and no swap is enough (`MemoryRuns.FullSwapRun`).
- `get_mlq_proc` returns nothing on the call that refills the budgets, so a CPU can stop
  with a process ready: exactly if the ready ones have no budget left when it asks
  (`Dispatch.StopIff`), and it does on the run of `Dispatch.StopLeavesReady`. A CPU that is
  idle at its loop head looks at the done flag only after it has held a process again: after
  loading it can still stop exactly if a process is ready or held by some CPU, and is idle
  for good otherwise (`Dispatch.IdleStopsIff`, `Dispatch.IdleForGood`).
- `libkmem_copy_from_user` has the same body as `libkmem_copy_to_user` and copies from the
  kernel to the user; one method stands for both.
- Kernel allocations of more than 1000 pages run into the range of the next id
  (`MemoryRuns.KernelRangesOverlapIff`). `__kmalloc` maps over pages that are there already
  and forgets their frames; nothing else ever loses a frame (`FrameAccounts.NoFrameLost`).

## Model

| member | source | states |
|---|---|---|
| `Word64.LastUpdateDecides` | src/mm64.c:223-282 | after any history of frame and swap updates of an entry, it decodes to the number of the last one cut down to its field, with no stale bit; it is never both present and swapped |
| `Word64.FpnFits` | include/mm.h:33-40 | a stored frame number is read back if and only if it is below 2^13, whatever stale bits the entry had |
| `Word64.SwapOffsetFits` | include/mm.h:33-40 | a stored swap offset is read back if and only if it is below 2^21, whatever stale bits and swap type |
| `Word64.PhysicalAddressBelow` | src/libmem.c:949-955 | every physical address an entry can lead to lies below 2^25 |
| `Word64.IndicesRecombine` | src/mm64.c:184-214 | the five indices of an accepted page put together again give its low 45 bits |
| `Word64.SameIndicesIff` | src/mm64.c:184-214 | two pages have the same indices if and only if both are accepted and agree in their low 45 bits |
| `Word64.UpperHalfAliases` | src/mm64.c:187-190 | a page of the upper half is accepted and has the indices of a lower-half page |
| `Word64.PageAccepted` | src/mm64.c:187-190 | every page number below 2^45 is accepted |
| `Word64.PathInjective` | src/mm64.c:211-214 | below 2^45 distinct pages have distinct index paths (which indices these are: `PagePaths.PathDigits`) |
| `PagePaths.PathDigits` | src/mm64.c:69-121 | the slots of a walk, from the root to the leaf, are the digits of the page number to the base 512 |
| `PagePaths.SamePrefixIff` | src/mm64.c:69-121 | two pages share the first k slots of their walks if and only if they agree after division by 512^(5-k) |
| `PagePaths.NeededBlocks` | src/mm64.c:66-118 | the tables needed are the root and one per block of 512, 512^2, 512^3 and 512^4 pages that a walked page lies in |
| `RadixTree.FindIff` | src/mm64.c:50-122 | following a path through the tables finds exactly the table that hangs at this path |
| `RadixTree.ExtendedOk` | src/mm64.c:66-118 | an allocating walk reaches the table of its path, keeps the tree, changes no entry, and adds exactly the missing tables |
| `RadixTree.StoreSetsOne` | src/mm64.c:50-122 | a store at the end of one path sets that entry and no other |
| `RadixTree.NeededIff` | src/mm64.c:40-48 | the tables needed are the root and one per distinct prefix of length 1 to 4 of a walked path |
| `RadixTree.TableCount` | src/mm64.c:40-48 | the number of tables is the number of needed ones, and at most 1 + 4n after n walks |
| `PageTables.StoreRefines` | src/mm64.c:258-282 | storing through a page's leaf sets the flat map at this page and nowhere else |
| `PageTables.WalkedOk` | src/mm64.c:50-122 | an allocating walk leaves the flat map as it is and the table set exact |
| `PageTables.PageTable.constructor` | src/mm64.c:632-642 | a fresh table maps nothing and counts one table of 4096 bytes |
| `PageTables.PageTable.GetPtePtr` | src/mm64.c:50-122 | the walk returns the leaf whose entry means what the flat map says; read-only it changes only statistics, allocates nothing and reads one entry per table on the way, and NULL means no entry; allocating it reads five and writes one slot per table it allocates |
| `PageTables.PageTable.PteGetEntry` | src/mm64.c:289-314 | the entry read is that of the flat map |
| `PageTables.PageTable.PteSetFpn` | src/mm64.c:258-282 | the flat map gets the frame number modulo 2^13 at this page only |
| `PageTables.PageTable.PteSetSwap` | src/mm64.c:223-253 | the flat map gets the swap offset modulo 2^21 at this page only |
| `PageTables.PageTable.CheckAccounting` | src/mm64.c:40-48 | tables_allocated is 1 plus the numbers of blocks of 512, 512^2, 512^3 and 512^4 pages that the pages walked with allocation lie in, storage_bytes 4096 times that, level_writes one per table but the root and per entry set, level_reads at most 5 per walk |
| `Devices.Device.TakeOk` | src/mm-memphy.c:170-192 | taking a frame keeps the two lists a duplicate-free partition and moves exactly the head |
| `Devices.Device.GiveOk` | src/mm-memphy.c:243-278 | giving a used frame back keeps the partition and removes exactly it from the used list |
| `Devices.Device.TakeGive` | src/mm-memphy.c:170-278 | giving back the frame just taken restores the device |
| `Memphys.WhichFormatFits` | src/mm-memphy.c:283-291 | a format with 4096 keeps all frames inside the storage; with 256 only a device below 256 bytes |
| `Memphys.Memphy.Format` | src/mm-memphy.c:138-168 | all maxsz / pagesz frames free in ascending order, none used; refused below one page |
| `Memphys.Memphy.GetFreefp` | src/mm-memphy.c:170-192 | the head of the free list moves to the used list, or None and no change |
| `Memphys.Memphy.PutFreefp` | src/mm-memphy.c:243-278 | the frame is found and moved back exactly if it is in use |
| `Memphys.Memphy.Read` | src/mm-memphy.c:73-88 | the byte of frame addr / 4096 at addr % 4096 |
| `Memphys.Memphy.Write` | src/mm-memphy.c:119-132 | that byte of the storage changes and no other, for every address of the storage; so does the byte of the frame it lies in, if any |
| `Memphys.SwapCopyPage` | src/mm64.c:600-613 | the destination frame becomes the source frame, all else stays |
| `Paging.FifoOrder` | src/libmem.c:1059-1084 | enlisting and taking out keep arrival order, and the victim is the earliest arrival not yet taken out |
| `Paging.FifoReplacement` | src/libmem.c:237-275 | the evicted page is present, of the same space, not the faulting page and the longest listed; the list is exactly the present pages if and only if swap was never found full |
| `Paging.StuckStays` | src/libmem.c:239-262 | a present page that its list misses keeps its frame through every page fault of any space |
| `Paging.GetPageRefines` | src/libmem.c:221-281 | on every exit all pages mapped before, of all spaces, keep their contents; on success the page is present in the returned frame; no other page is mapped or unmapped |
| `Paging.FaultHit` | src/libmem.c:221-236 | a fault for a page that is in RAM returns its frame and changes nothing |
| `Paging.FaultMissFree` | src/libmem.c:237-275 | with a free frame nothing is evicted: the page gets the first one, is enlisted in front, brings its contents from swap and gives its swap frame back |
| `Paging.FaultEvicts` | src/libmem.c:239-275 | with RAM full the longest listed page goes to the first free swap frame and the faulting page gets its frame; its own swap frame comes back; no other entry and no other list changes |
| `Paging.FaultFails` | src/libmem.c:239-262 | a fault that cannot be served changes nothing but the list of its space, which loses its victim |
| `Paging.AllocFramesAllOrNothing` | src/mm64.c:470-532 | n distinct frames move from free to used, if and only if there are n, or both lists keep their elements |
| `Paging.MapFramesMaps` | src/mm64.c:422-446 | page first + i gets frame i, and everything else stays |
| `Paging.MapRamMaps` | src/mm64.c:543-592 | all pages of the range are mapped in free-list order, or none; contents are kept |
| `Paging.MapRamLists` | src/mm64.c:422-446 | the frames leave the front of the free list and the pages are enlisted in ascending order |
| `Paging.MapRamOk` | src/mm64.c:543-592 | mapping keeps frame ownership and the FIFO invariant |
| `Paging.MapKernelMaps` | src/libmem.c:533-556 | succeeds if and only if RAM has enough free frames, then every page of the range is in RAM; no page leaves RAM |
| `Paging.MapKernelKeeps` | src/libmem.c:533-556 | pages outside the range keep entry and contents |
| `Paging.WriteByteOk` | src/libmem.c:1022-1024 | a byte written to a present page is seen through this page and no other |
| `Regions.FirstFit` | src/libmem.c:1104-1133 | the first free region that is large enough, if any |
| `Regions.CarvedCount` | src/libmem.c:1105-1128 | splitting or unlinking by cloning removes exactly the addresses handed out |
| `Regions.AllocOk` | src/libmem.c:69-124 | for numbers that fit, the region lies in the area, with the asked size exactly if the area grew or the size survived the cast to int; other slots stay; the area grows only if no free region fits, by whole pages; sbrk equals vm_end |
| `Regions.AllocConserves` | src/libmem.c:79-109 | live and free regions still tile [0, sbrk) if and only if the slot held no live bytes and the numbers fit: the cut of the free region does not run backwards, or the old break survives the cast to int and the new one 64 bits; or, past the end of 64 bits, the region entered is the very one it overwrites |
| `Regions.SmallNumbersFit` | src/libmem.c:79-110 | the numbers fit whenever break and size are below 2^31 |
| `Regions.ReleaseConserves` | src/libmem.c:133-165 | releasing keeps the tiling |
| `Regions.RunConserves` | src/libmem.c:69-165 | through every run of allocations into empty slots and releases, from the area init_mm builds, the tiling holds at every point if and only if the numbers of all allocations fit |
| `Regions.OverwriteLoses` | src/libmem.c:79-109 | runs on which it fails: any two allocations below 2^31 into the same slot, the first not empty |
| `Regions.LargeBreakLoses` | src/libmem.c:89-109 | another: 3000000000 bytes and then 4096 into the next slot; the second region starts at 0xFFFFFFFFB2D06000, outside the area |
| `Regions.TiledMeansDisjoint` | src/libmem.c:69-165 | tiling means that no two live or free regions share an address |
| `Regions.FreshTiled` | src/mm64.c:658-672 | the area init_mm builds is tiled |
| `VmAreas.GetVmaByNum` | src/mm-vm.c:31-53 | the first area whose number is not below the one asked for |
| `VmAreas.ValidateOverlap` | src/mm-vm.c:105-149 | accepts exactly a non-empty range that every other area keeps clear of |
| `VmAreas.ClearMeansDisjoint` | src/mm-vm.c:137-140 | an area is rejected if and only if it shares an address with the range or is empty and strictly inside it |
| `VmAreas.IncLimit` | src/mm-vm.c:168-213 | one area of several grows to its new end in 64 bits, exactly if it exists and every other area keeps clear of the new range |
| `VmAreas.GrowthAcceptedIff` | src/mm-vm.c:190-196 | in a list sorted by number a growth is accepted if and only if the areas then still share no address and no empty area is swallowed |
| `MemorySystem.StepInv` | src/libmem.c:69-1026 | every library call keeps frame ownership, the FIFO lists, the areas and the bound on mapped pages |
| `MemorySystem.StepRefines` | src/libmem.c:221-1026 | every library call is one step of a flat byte memory, and reads what that memory holds |
| `MemorySystem.ResolveIff` | src/libmem.c:775-786 | the address checks accept a byte if and only if the index is good and start + off lies below the end of the region |
| `MemoryRuns.RunRefinesFlat` | src/libmem.c:908-1026 | for every run of calls by any processes, each byte read is the last one written to that address of that space |
| `MemoryRuns.ReadYourWrites` | src/libmem.c:908-1026 | a successful read returns the byte of the last successful write to the address, whatever happened in between |
| `MemoryRuns.UserAccessFailsIff` | src/libmem.c:908-1026 | a user read or write fails exactly when the index is bad, start + off is not below the end of the region, or its page is not in RAM, RAM is full and nothing can be evicted |
| `MemoryRuns.GrowthMapsIff` | src/mm-vm.c:199-226 | a growing allocation succeeds in any case; all its pages are mapped if and only if RAM has enough free frames, and otherwise none is |
| `MemoryRuns.GrantedUnmapped` | src/mm-vm.c:199-226 | from start-up, one page more than RAM has frames is granted and none of its pages is mapped |
| `MemoryRuns.StuckForever` | src/libmem.c:239-262 | a present page that its list misses keeps its frame through every later run |
| `MemoryRuns.FullSwapRun` | src/libmem.c:239-262 | a run from start-up, with one frame and no swap, that leads to such a page |
| `Isolation.NothingLeaks` | src/libmem.c:221-1026 | after every run of calls by any processes, a byte that a call reads in a space is zero or was written before in that space |
| `Isolation.WrittenMeans` | src/libmem.c:833-1026 | written means: by a successful write call of the run, in that space, of that byte |
| `Isolation.StepClean` | src/libmem.c:221-1026 | every call keeps free RAM frames zero and every mapped page made of zeroes and bytes of its own space |
| `MemoryRuns.FrameOwnership` | src/mm-memphy.c:138-278 | in every reachable state no two pages share a frame, named frames are in use, and the lists partition each device |
| `FrameAccounts.NoFrameLost` | src/libmem.c:221-281 | in every reachable state a swap frame is in use if and only if some page lives in it, and a RAM frame if and only if some page does or a kernel allocation mapped another frame over it, never both |
| `FrameAccounts.UserAccessFailsWhen` | src/libmem.c:908-1026 | in every reachable state a user read or write fails if and only if the byte is outside the region, or its page is not in RAM, every RAM frame is some page's or lost, and the process has no listed page or every swap frame holds some page |
| `MemoryRuns.BootInv` | src/mm64.c:620-686 | the initial state satisfies all invariants |
| `MemoryRuns.StepKeepsPools` | src/libmem.c:569-688 | every step of every process keeps the pool invariant |
| `MemoryRuns.RunKeepsPools` | src/libmem.c:569-688 | so does every run |
| `MemoryRuns.Reached` | src/libmem.c:69-1026 | every state reachable from start-up satisfies all invariants |
| `MemoryRuns.PoolSlots` | src/libmem.c:644-688 | in every reachable state storage plus size is where it was at creation; at most size / align slots are handed out, inside the pool and pairwise disjoint |
| `MemoryRuns.PoolsApart` | src/libmem.c:569-610 | slots of different pools of at most 1000 pages do not overlap |
| `MemoryRuns.KernelRangesOverlapIff` | src/libmem.c:524-542 | kernel allocations with different ids overlap exactly if the lower one has more than 1000 pages per id between them |
| `MemoryRuns.KernelAccessNeverFaults` | src/libmem.c:758-899 | in every reachable state a kernel read or write fails exactly when the index is bad or start + off is not below the end of the slot, never for an absent page |
| `MemoryRuns.KernelPagesStay` | src/libmem.c:239-262 | no step takes a kernel page out of RAM |
| `UserCopy.WriteOneByte` | src/libmem.c:972-1026 | a user write changes at most the byte it names, also when it evicts and swaps pages |
| `UserCopy.RoundOk` | src/libmem.c:734-746 | one round copies one byte and changes no other, or fails and changes none |
| `UserCopy.CopySnoc` | src/libmem.c:734-746 | a round after n copied bytes leaves n + 1 copied, or n if it failed |
| `UserCopy.CopyCompletes` | src/libmem.c:734-746 | a copy whose ranges lie in both regions is complete unless a page of the destination cannot be brought in |
| `Calls.FreeMeans` | src/libmem.c:133-165 | __free succeeds if and only if the index is good and the slot set; it then clears the slot, puts a non-empty region in front of the free list and changes nothing else; otherwise nothing |
| `Calls.FreeCounts` | src/libmem.c:157-161 | each address is free once more than before for the freed region that contains it |
| `Calls.AllocMeans` | src/libmem.c:69-124 | __alloc succeeds if and only if the index is good; the region is the front of the first free region that holds the size as an int, or the old break with the full size after a growth by whole pages whose rest is freed; no other slot, process or table changes |
| `Calls.RunTiled` | src/libmem.c:69-165 | in a run from start-up the regions of every process tile its area at every moment if and only if no call allocates into a slot with live bytes |
| `Calls.KmallocMeans` | src/libmem.c:513-561 | __kmalloc succeeds if and only if the size is not 0 and RAM has a free frame per page; pages id * 1000 on get the free frames in order, also before a failure; no other page changes |
| `Calls.PoolCreateMeans` | src/libmem.c:569-610 | a pool is created if and only if size and alignment are good, the id is and RAM has the frames; it then starts at id * 1000 pages with the size asked for and no slot out, and all other pools are as before |
| `Calls.CacheAllocMeans` | src/libmem.c:644-688 | a slot is handed out if and only if both indices are good, the pool was created and one more slot lies in it; it follows the earlier ones and nothing else changes |
| `Calls.UserReadMeans` | src/libmem.c:908-963 | a user read changes no mapped byte and answers with the byte at its address |
| `Calls.UserWriteMeans` | src/libmem.c:972-1026 | a user write sets the byte at its address if it succeeds and changes no other mapped byte |
| `Calls.KernelReadMeans` | src/libmem.c:758-824 | a kernel read changes nothing and answers with the byte at its address |
| `Calls.KernelWriteMeans` | src/libmem.c:833-899 | a kernel write sets the byte at its address and no other, or fails and changes nothing |
| `LibMemSteps.StepElsewhere` | src/libmem.c:221-281 | no call touches the page table, FIFO list, area or symbol table of another space |
| `LibMemSteps.RoundStopped` | src/libmem.c:734-746 | a round of the copy loop fails only where its byte lies outside a region or its page cannot be brought in, then and still when it returns |
| `LibMemSteps.GetPageFits` | src/libmem.c:221-281 | under the invariant all numbers pg_getpage meets fit their fields and devices |
| `LibMemSteps.AccessFits` | src/libmem.c:908-1026 | under the invariant a checked user address stays within the page tables |
| `LibMemSteps.KAccessFits` | src/libmem.c:758-899 | under the invariants a checked kernel address stays within the page tables |
| `LibMemSteps.GrowFits` | src/libmem.c:90-110 | under the invariant a legal allocation stays within 64 bits and the page tables |
| `LibMemSteps.KmallocFits` | src/libmem.c:513-561 | under the invariant a legal kernel allocation stays within the page tables |
| `LibMemSteps.AllocByGrowth` | src/libmem.c:89-124 | an allocation without a fitting region is a growth, a new region at the old break and a freed rest |
| `LibMemSteps.RollbackStep` | src/mm64.c:514-528 | returning collected frames one by one restores the used list and reverses the free list |
| `LibMem.MmStruct.constructor` | src/mm64.c:620-686 | an empty page table, FIFO list, area, symbol table and no pools |
| `LibMem.MmStruct.FindVictimPage` | src/libmem.c:1059-1084 | the tail of the list is returned and unlinked |
| `LibMem.MmStruct.GetFreeVmrgArea` | src/libmem.c:1092-1139 | first fit for a size that is an int, and the free list after the cut |
| `LibMem.MmStruct.EnlistVmFreerg` | src/libmem.c:34-47 | a non-empty region becomes the head of the free list |
| `LibMem.MmStruct.CheckedAddress` | src/libmem.c:914-933 | the virtual address, or None for a bad index, an unset slot or an offset outside |
| `LibMem.MmStruct.TakeSlot` | src/libmem.c:652-687 | the pool is bumped and the slot entered, or nothing changes |
| `LibMem.BootHolds` | src/mm64.c:620-686 | a fresh mm_struct describes an empty space of the initial state |
| `LibMem.HoldsStays` | src/libmem.c:221-281 | an mm_struct keeps describing its space while other spaces take steps |
| `LibMem.InitMemphy` | src/mm-memphy.c:283-299 | a zeroed device with all maxsz / pagesz frames free, and a valid device of that many frames whenever they fit the storage |
| `LibMem.Krnl.constructor` | src/mm-memphy.c:283-299 | two new devices, formatted at the page size frames are addressed with: the initial state |
| `LibMem.Krnl.PgGetPage` | src/libmem.c:221-281 | the routine on lists, tables and byte arrays takes exactly the paging step |
| `LibMem.Krnl.AcquireFrame` | src/libmem.c:237-262 | a free frame, or the victim's after its contents went to swap |
| `LibMem.Krnl.EvictVictim` | src/libmem.c:239-261 | the victim leaves the list and goes to swap; on full swap it has left the list and nothing else happens |
| `LibMem.Krnl.InstallPage` | src/libmem.c:264-275 | the page comes in from swap if it was there, is entered and enlisted |
| `LibMem.Krnl.ReadUserMem` | src/libmem.c:908-963 | takes exactly the user read step |
| `LibMem.Krnl.WriteUserMem` | src/libmem.c:972-1026 | takes exactly the user write step |
| `LibMem.Krnl.ReadKernelMem` | src/libmem.c:758-824 | takes exactly the kernel read step |
| `LibMem.Krnl.WriteKernelMem` | src/libmem.c:833-899 | takes exactly the kernel write step |
| `LibMem.Krnl.AllocPagesRange` | src/mm64.c:470-532 | the loop with its rollback is the all-or-nothing allocation |
| `LibMem.Krnl.VmapPageRange` | src/mm64.c:398-461 | page after page is mapped and enlisted until the pages or the frames run out, and the returned region is what was mapped |
| `LibMem.Krnl.VmMapRam` | src/mm64.c:543-592 | all pages mapped and success, exactly if RAM has enough free frames; otherwise none mapped and failure |
| `LibMem.Krnl.IncVmaLimit` | src/mm-vm.c:157-229 | the growth passes the overlap test, end and break grow whether or not the mapping succeeds, and the result is a failure exactly if the area did not grow although it should |
| `LibMem.Krnl.Alloc` | src/libmem.c:69-124 | takes exactly the allocation step, casts included, and returns the region's start |
| `LibMem.Krnl.Free` | src/libmem.c:133-165 | takes exactly the release step, which `Calls.FreeMeans` describes |
| `LibMem.Krnl.Kmalloc` | src/libmem.c:513-561 | takes exactly the kernel allocation step and returns its address |
| `LibMem.Krnl.PoolCreate` | src/libmem.c:569-610 | takes exactly the pool creation step |
| `LibMem.Krnl.CacheAlloc` | src/libmem.c:644-688 | takes exactly the slot allocation step |
| `LibMem.Krnl.CopyToUser` | src/libmem.c:721-749 | on success the destination bytes equal the kernel source bytes although pages may be swapped meanwhile; a failure after n bytes has copied exactly these, and byte n lies outside a region or its page cannot be brought in; no other mapped byte changes |
| `LibMem.Call` | src/libmem.c:69-1026 | a call by any process takes its step on the objects of its own space, and the objects of all spaces still describe them |
| `LibMem.RunCalls` | src/libmem.c:69-1026 | a run of calls by any processes leads the objects through the states of the run and gives its answers |
| `LibMem.Simulate` | src/libmem.c:69-1026 | the same from start-up, with all objects made by the constructors: the final state and every answer are those of the run |
| `Mlq.GetServes` | src/sched.c:61-90 | serves the smallest eligible priority, oldest process first, and lists it as running; refills exactly when all ready levels have spent their budgets; returns nothing exactly when none is eligible |
| `Mlq.AddMeans` | src/sched.c:110-123 | the process becomes the last of the queue of its priority unless 50 are there; nothing else changes |
| `Mlq.PutMeans` | src/sched.c:92-108 | the same, and the first entry for the process leaves the running list, the others stay in order |
| `Mlq.GetCloser` | src/sched.c:61-90 | each call serves queue p or brings its turn at least one call closer |
| `Mlq.BoundedWaiting` | src/sched.c:61-90 | the process at position k of queue p is dispatched within the stated number of calls, whatever puts and adds interleave |
| `Mlq.BoundedWaitingAnyState` | src/sched.c:61-90 | the same with (k + 1) times a bound that depends on the priority only |
| `Mlq.EpochBudget` | src/sched.c:39-90 | what is left of a budget plus the dispatches since the last refill is always 140 minus the priority |
| `RunQueues.Queue.Enqueue` | src/queue.c:13-20 | appends, or drops silently at 50 |
| `RunQueues.Queue.Dequeue` | src/queue.c:22-50 | removes and returns the oldest entry |
| `RunQueues.Queue.Purge` | src/queue.c:52-79 | removes the first occurrence, if there is one |
| `RunQueues.Scheduler.constructor` | src/sched.c:39-52 | new empty queues and full budgets |
| `RunQueues.Scheduler.QueueEmpty` | src/sched.c:29-37 | whether any ready queue has a process |
| `RunQueues.Scheduler.Get` | src/sched.c:61-90 | takes exactly the scheduler's get step |
| `RunQueues.Scheduler.Put` | src/sched.c:92-108 | takes exactly the put step |
| `RunQueues.Scheduler.Add` | src/sched.c:110-123 | takes exactly the add step |
| `Dispatch.StepPlaced` | src/os.c:50-98 | every loader and CPU step keeps each process in exactly one place and running_list exact |
| `Dispatch.PlacementAndExclusion` | src/os.c:50-182 | in every run of at most 50 processes each loaded process is once in its own queue, or held by one CPU and listed as running, or finished |
| `Dispatch.StopIff` | src/os.c:72-83 | a CPU stops exactly when it has just given up a process, loading is over and no ready process has budget; it then leaves processes ready exactly if there are any |
| `Dispatch.StopLeavesReady` | src/sched.c:83-89 | a run in which the CPU stops with a process ready |
| `Dispatch.IdleStopsIff` | src/os.c:58-83 | after loading, an idle CPU stops in some run if and only if a process is ready or held by some CPU; otherwise, and only then, it is idle after every run |
| `Dispatch.SwitchingCanStop` | src/os.c:66-83 | after loading, a CPU that has just given up a process stops in some run |
| `Dispatch.IdleForGood` | src/os.c:58-65 | a reachable state in which a CPU is idle after every run |
| `Timer.StepInv` | src/timer.c:21-93 | every critical section of every thread keeps the barrier invariant |
| `Timer.Reachable` | src/timer.c:21-93 | the invariant holds in every reachable state |
| `Timer.Lockstep` | src/timer.c:29-77 | in every reachable state no live device starts slot t + 1 before all have finished slot t; counts differ by at most one; a working device reads its own slot from the clock |
| `Timer.TickOnlyBetweenSlots` | src/timer.c:44-45 | in every reachable state the clock moves only while no device works |
| `Timer.WritesOfDoneExclude` | src/timer.c:48-66 | in no reachable state do the two writers of done meet, although they hold different locks |
| `Timer.RankFalls` | src/timer.c:21-93 | every step but a tick or a spurious wakeup uses up rank |
| `Timer.WakeupRises` | src/timer.c:31-36 | a spurious wakeup gives back one |
| `Timer.BarrierProgress` | src/timer.c:29-77 | in every reachable state with a live device a proper step is enabled; every run of more than 14 n + 4 steps, plus two per spurious wakeup in it, moves the clock |
| `Timer.RoundExitsIff` | src/timer.c:24-56 | a round of the timer ends with its exit if and only if it saw every device detached in that round, whatever the other threads do meanwhile |
| `Timer.TimerLeaves` | src/timer.c:22-58 | once every device is detached no run is longer than 4 n + 6 steps or two ticks and the timer is never stuck, so it leaves; and it has never left with a device that is not detached |

## Left out

- Interleavings inside one memory call: each library call is one atomic step; the code tests a free list before it locks, and not every path takes the lock.
- Process exit: finished processes do not return frames in the code either, so nothing is claimed about it.
- Loading processes at run time: the spaces of all processes exist, empty, from the start.
- `libread` and `pg_getval`: they never deliver the byte to the caller, so read-back is stated over `__read_user_mem` and `__write_user_mem`.
- `libkmem_cache_alloc`: it takes its helper's success code for a failure; the helper is modelled.
- Sequential devices, raw memory syscalls by user programs, `vmap_pgd_memset` and `free_pcb_memph`.
- Parsing, console output, syscall dispatch, and the instruction interpreter.
- Failing `malloc` and `calloc`.
- The frame size given to the format is 4096 where the system is set up, RAM has at most 8192 frames, swap at most 2^21, page numbers stay below 2^45, and offsets are 32-bit, as all callers pass them.
- MemorySystem.StepInv: runs of the whole system ask that the numbers of each allocation fit and that no area grows beyond 2^31; what is lost otherwise is stated by `Regions.AllocConserves` for one area.
- PageTables.PageTable.GetPtePtr: its four identical levels are written as one loop.
- LibMem.Krnl.Kmalloc: setting the present bit once more after `pte_set_fpn` has set it is not repeated.
- LibMem.Krnl.IncVmaLimit: a space has exactly one area, as init_mm leaves it.
- MemoryRuns.PoolSlots: creating a pool anew starts its history anew, so nothing is said about slots of the earlier pool of that id.
- The CPU's time slice: how long a process runs and when it ends is left open, so every length is covered.
- Counters and the clock are unbounded numbers.
- LibMem and RunQueues: linked lists are sequences that the methods reassign, so node identity and freeing are not captured.
