# A model of the kernel's memory stack, FAT12 read path and concurrency primitives

This project models the parts of the kernel whose correctness rests on invariants that no single
function shows, and proves them. `dafny verify dfyconfig.toml` checks everything.

**Kernel heap** (`SizeClasses`, `ChunkLists`, `ChunkChains`, `KernelHeap`, `HeapPages`, `KernelAllocator`). The size-class
slab allocator works on an address-indexed memory of chunks, as the source works on masked and
reinterpreted pointers. Every operation keeps each chunk's intrusive free list duplicate-free, as long as
`_free_count` and covering exactly the free objects, and each group's chain acyclic and equal to the set
of partly used chunks. The branch that panics because a half-full chunk is missing is proved unreachable.
The page source is a contract (`ChunkLists.PageAnswer`); `HeapPages` shows that the frame allocator keeps
it and for which requests it may be asked, and `KernelAllocator` runs the heap on it: at any time the frames
handed out are the heap's pages and those of other users, and once every block is freed only the latter are left.

**Physical frames** (`FrameScan`, `PhysicalPool`, `FrameMap`, `PhysicalRuns`, `FrameReach`, `FrameExact`,
`PhysicalMemory`, `DmaBuffer`). The aligned next-fit scan checks a run modulo the pool size but marks it without
wrapping. A request is safe exactly when the run it takes, if any, does not wrap; a frame in use at either end of
the pool ensures it. Everything about the frames is proved for all safe requests, and the others are exactly those
that write outside the bitmap. `FrameExact` gives the exact condition on the frames that boot reserves under which
no run of allocations and releases ever leads to a state where the request writes outside the bitmap. Above stand
the three pools with fallback, routing by address, the boot step that places its own bitmaps and reserves the
regions of the memory map by their type, and all runs of allocation and release from boot on. `DmaBuffer` gives the exact condition under which the floppy driver's buffer passes its own test.

**Paging** (`PageWalk`, `Paging`, `DemandPaging`). The processor's two-level walk, the kernel's walk through
the recursive slot, the inverse search, the linear map, and runs of demand faults fed by the frame allocator.
The processor's walk follows section 4.3 of the Intel SDM Vol. 3A.

**FAT12 and floppy** (`Fat12Fat`, `Fat12Volume`, `Fat12Directory`, `Floppy`). The packing of 12-bit entries,
the expansion of cluster chains, the resumable directory scan with its sector cache, file names, and block
reads through a one-cylinder cache. Terms are those of sections "FAT Data Structure" and "FAT Directory
Structure" of the Microsoft FAT32 File System Specification v1.03.

**Concurrency** (`SharedCount`, `Interlocked`, `Scheduler`). The reference counts behind `shared_ptr` and
`weak_ptr`, the exchange spinlock and the compare-and-exchange counter are state machines over single atomic
steps of any number of threads; the scheduler is a class over a ring of tasks.

**Two libc++ internals** (`HashConstrain`, `HashBuckets`, `HashMoves`, `HashTable`; `BitWords`, `BitFill`,
`BitCopy`, `BitCopyBackward`, `BitSwap`, `BitRotate`). The hash table works on linked nodes and predecessor
slots in place. The word-wise bit-range algorithms work on arrays of 32-bit words, each proved to equal its
bit-by-bit meaning with every bit outside the range unchanged.

Several properties that one would expect are not true of the code. The model keeps the code as it is, and a
lemma states exactly when the property does hold: `FrameExact.ReachableWithinIff`,
`HeapPages.HeapRequestsWithinIff`, `PhysicalMemory.ReservesWholeRangeIff`, `PhysicalMemory.ReserveLoopEndsIff`,
`PhysicalMemory.LayoutTilesIff`, `FrameScan.SafeIff`, `DmaBuffer.CylinderBufferIff`, `DmaBuffer.HoldsTransferIff` (a
1.2 MB drive's buffer is shorter than the fixed transfer), `DemandPaging.FrameIsFreshIff`,
`Fat12Fat.GuardProtectsIff`, `Fat12Fat.Table.NextCluster`, `Fat12Fat.UnpackOfPackIff`,
`Fat12Volume.RootHoldsAllIff`, `Fat12Volume.ExpansionEndsIff`, `Fat12Volume.SectorsRightIff`,
`Floppy.CacheInvisibleIff`, `Floppy.RetryAfterFailureIff`, `Interlocked.StrayLeaveIff`. The FAT specification
knows 0xE5 and 0x00 as marks of a directory entry and any entry from 0xFF8 on as the end of a chain; the code
also skips 0x0E, and ends a chain on 0xFF0 and 0xFFF only, and the model follows the code
(`Fat12Directory.LiveEntries`, `Fat12Volume.ChainIs`, `Fat12Volume.OtherMarksPanic`).

What the definitions mean is stated a second time in the hardware's or the format's own numbers, by lemmas that
do not use them: the walk and the fault bits (`PageWalk.WalkIs`, `Paging.FaultBits`), the packing of entries
(`Fat12Fat.PackedEntry`), the marks of entries and chains, the tracks and heads of the disk (`Floppy.FlatByte`), the
types of memory regions (`PhysicalMemory.BootIsExact`), the size classes and the end of each task's stack.

## Model

| member | source | states |
|---|---|---|
| SizeClasses.ClassBounds | src/kheap.cpp:134-153 | For all 17 instantiations the objects and the true 12-byte header fit the chunk although the count is computed from an overhead of 8, and a chunk of several pages holds one object |
| SizeClasses.ClassTable | src/kheap.cpp:332-348 | The object sizes double from class to class, starting at 8 bytes, less 16 or 20 bytes from the eighth class on |
| SizeClasses.ChunksFilled | src/kheap.cpp:332-348 | The last eight classes have 1, 2, 4 to 128 pages, which one object and its headers fill to the last byte; the others have one page |
| SizeClasses.ObjectCounts | src/kheap.cpp:143 | The number of objects in a chunk of each class |
| SizeClasses.FindChunkGroup | src/kheap.cpp:371-382 | The search answers the one class that fits first, or none exactly when no class is large enough |
| SizeClasses.ExactSizeFits | src/kheap.cpp:402-405 | Searching for the size stored in a block's header finds the class the block came from |
| SizeClasses.MaskRecoversChunk | src/kheap.cpp:262 | Masking the address of any object of any class gives back its chunk |
| SizeClasses.ObjAddrInjective | src/kheap.cpp:172-187 | Different objects of a chunk have different addresses |
| KernelHeap.NewChunk | src/kheap.cpp:155-168 | A new chunk's free list runs through all objects in order and every object is free |
| KernelHeap.Memory.ChunkAlloc | src/kheap.cpp:170-178 | Allocation from a chunk makes exactly one free object live and keeps the free list exact |
| KernelHeap.Memory.ChunkFree | src/kheap.cpp:180-188 | Release to a chunk makes exactly that object free and keeps the free list exact |
| KernelHeap.ChunkGroup.Alloc | src/kheap.cpp:240-256 | Keeps the group's chain exact; fails only when the chain is empty and the page source answers 0 |
| KernelHeap.ChunkGroup.AllocFromNew | src/kheap.cpp:311-329 | A fresh chunk is owned, chained unless already full, and its pages are added to those lent |
| KernelHeap.ChunkGroup.Free | src/kheap.cpp:258-303 | Keeps the chain exact, gives the pages back with the last block, and never reaches the panic |
| KernelHeap.ChunkGroup.Unlink | src/kheap.cpp:277-291 | The unlink loop always finds the chunk it looks for and takes out exactly that one |
| KernelHeap.Heap.Alloc | src/kheap.cpp:388-395 | A successful allocation makes one new block live, at least as large as asked, and changes no other block |
| KernelHeap.Heap.Free | src/kheap.cpp:397-410 | Freeing ends exactly one block; freeing an already free block of an owned chunk changes nothing |
| KernelHeap.Heap.HeaderIdentifiesGroup | src/kheap.cpp:399-405 | The header in front of a live block names the class of the chunk found by masking |
| KernelHeap.Heap.LiveBlocksDisjoint | src/kheap.cpp:240-330 | Live blocks of all classes never overlap, headers included |
| KernelHeap.Heap.ChainExact | src/kheap.cpp:240-330 | A group's chain is acyclic and holds exactly its chunks with both a free and a live object |
| KernelHeap.Heap.OwnsExactlyLivePages | src/kheap.cpp:258-329 | The heap holds a page exactly when some live block lies in that page's chunk |
| KernelHeap.Heap.AllFreedAllReturned | src/kheap.cpp:258-303 | Once every block is freed all pages are back and no group holds a chunk |
| ChunkChains.LinkedSkip | src/kheap.cpp:279-286 | Redirecting the predecessor's link leaves the list of all other chunks in order |
| ChunkLists.PopOk | src/kheap.cpp:115-123 | Taking the first object keeps the free list duplicate-free, counted and exactly covering |
| ChunkLists.PushOk | src/kheap.cpp:125-131 | Putting an object back keeps the free list duplicate-free, counted and exactly covering |
| HeapPages.SourceKeepsContract | src/mm.cpp:97-106 | Whenever it may be asked, the frame allocator answers 0 or whole pages that are not lent, and lends exactly those |
| HeapPages.ReleaseKeepsContract | src/mm.cpp:113-116 | Giving back whole lent pages takes exactly those off the lent ones |
| HeapPages.HeapPermittedIff | src/kheap.cpp:313 | It may be asked for a chunk exactly while the run that the default pool would take, if any, lies inside its bitmap; that always holds for one page, an empty pool, or a frame at either end in use |
| HeapPages.SmallMachineServesHeap | src/physical.cpp:231-237 | When kernel memory ends within 16 MB, every request of every heap class is permitted in every run from boot on |
| HeapPages.BootLeavesUnused | src/physical.cpp:224-269 | Boot leaves every pool with its search at the start and only reserved frames in use |
| HeapPages.HeapRequestsWithinIff | src/kheap.cpp:313 | From boot on, single frames lead to a state in which a heap request marks outside the default pool's bitmap exactly when its reserved frames leave an opening; without reserved frames that is every request for more than one page, and some groups ask for more |
| KernelAllocator.Allocator.constructor | src/kheap.cpp:384-386 | A new heap holds none of the frames that are handed out, and no block is live |
| KernelAllocator.Allocator.Alloc | src/kheap.cpp:388-395 | The heap over the real pools answers 0 exactly when the class has no partly used chunk and no pool asked has a run for one; otherwise one new block is live, and the frames handed out stay divided between heap and others |
| KernelAllocator.Allocator.Free | src/kheap.cpp:397-410 | Freeing ends exactly one block, and the frames that go back to their pools are exactly the pages the heap no longer holds |
| KernelAllocator.Allocator.AllFramesReturned | src/kheap.cpp:258-303 | Once every block is freed the frames in use are those from boot and those of other users, and the groups are empty |
| FrameExact.ReachableWithinIff | src/physical.cpp:62-90 | From the pool that boot leaves, no run of single-frame allocations and releases leads to a state in which a request marks outside the bitmap, exactly when the reserved frames leave no opening for it |
| FrameExact.NeverWraps | src/physical.cpp:62-90 | Without an opening, no run of permitted requests of any size leads to such a state |
| FrameExact.EdgeLeavesNone | src/physical.cpp:71-79 | A reserved frame at either end of the pool leaves no opening for any request |
| FrameExact.NoneReservedIff | src/physical.cpp:62-90 | Without reserved frames there is an opening exactly for requests that do not fit behind the largest possible start |
| FrameExact.ReachOpening | src/physical.cpp:62-104 | Filling the pool, moving the search and releasing the run leads to the state in which the request wraps |
| FrameReach.ReservedEdge | src/physical.cpp:68-90 | In a pool whose first or last frame is reserved, requests of every size and alignment mark inside the bitmap at any time |
| FrameReach.PermittedIff | src/physical.cpp:136-164 | Frame 0 is reserved, so only the pools above the DMA pool restrict a request, each only when the call comes to it and the run it would take there wraps round its end |
| FrameReach.RunDescends | src/physical.cpp:62-104 | Every run keeps reserved frames in use and the search behind a frame that is not reserved |
| FrameScan.WrappedRunMeetsEnds | src/physical.cpp:71-79 | A checked run that wraps has met the first and the last frame |
| FrameScan.SafeIff | src/physical.cpp:68-90 | A request is safe, by the free runs alone, exactly when the scan takes no run that is marked outside the bitmap |
| FrameScan.SafeWithin | src/physical.cpp:68-90 | For a safe request the marked run is the checked run, inside the bitmap and wholly free |
| FrameScan.SafeWhen | src/physical.cpp:68-90 | That holds in every state for a request that fits, and for every request while a frame at either end is in use |
| FrameScan.FindsRunIff | src/physical.cpp:68-98 | The scan succeeds exactly when an aligned index within one round starts a free run |
| FrameScan.FindsFrameIff | src/physical.cpp:68-98 | A single frame is found exactly when one is free |
| FrameScan.FitsWithin | src/physical.cpp:68-90 | Under that condition the marked run is the run that was checked, and was wholly free |
| FrameScan.ScanSound | src/physical.cpp:62-86 | The start taken is an aligned candidate within one round whose checked run is free |
| FrameScan.ScanComplete | src/physical.cpp:68-98 | The scan gives up only when no aligned candidate within one round starts a free run |
| FrameScan.DividedPoolTakes | src/physical.cpp:62-92 | When the alignment divides the pool and covers the run, the run is aligned, in range and was wholly free |
| FrameScan.DividedPoolGivesUp | src/physical.cpp:68-98 | Then the pool falls through only if every aligned run has a frame in use |
| PhysicalPools.PhysicalPool.Init | src/physical.cpp:49-60 | All frames become free and the search starts at 0 |
| PhysicalPools.PhysicalPool.IndexOfAddress | src/physical.cpp:33-41 | `index_of` inverts `address_of` |
| PhysicalPools.PhysicalPool.FirstAligned | src/physical.cpp:64-66 | The first loop stops at the least aligned index from the previous position |
| PhysicalPools.PhysicalPool.IsFree | src/physical.cpp:70-79 | The inner loop decides whether the run, taken modulo the pool size, is free |
| PhysicalPools.PhysicalPool.AllocHere | src/physical.cpp:62-93 | One pool takes the run of the scan, marks exactly it and moves its position behind it, or changes nothing |
| PhysicalPools.ChainSafeIff | src/physical.cpp:95-98 | A call on a chain of pools is safe exactly when each pool it comes to, behind pools without a run, is |
| PhysicalPools.PhysicalPool.Alloc | src/physical.cpp:62-99 | The chain of pools behaves like the allocation on values, with 0 when all pools fail |
| PhysicalRuns.ChainOutcome | src/physical.cpp:95-98 | The first pool of the chain that has a run serves the call and no other pool changes |
| PhysicalRuns.AllocGrants | src/physical.cpp:62-99 | A success grants frames of one pool that were free and marks exactly those; a failure changes nothing |
| PhysicalRuns.AllocFresh | src/physical.cpp:136-164 | No reserved or live frame is handed out; the answer is 0 exactly when no aligned index within one round of any pool asked starts a free run |
| PhysicalRuns.FrameLeftIff | src/physical.cpp:136-164 | A single frame is handed out exactly when one is free in the pools that are asked |
| PhysicalRuns.FreeFrames | src/physical.cpp:184-194 | `free` clears exactly the frames of the run that exist |
| PhysicalRuns.RunKeepsInv | src/physical.cpp:136-194 | After any run of allocations and releases exactly the live and the reserved frames are in use |
| PhysicalRuns.FramesConserved | src/physical.cpp:136-194 | Free, allocated and reserved frames always add up to the whole memory |
| PhysicalRuns.AllocThenFree | src/physical.cpp:166-194 | Freeing returns every frame to the pool that issued it, also after fallback, and restores every status |
| DmaBuffer.CylinderBufferIff | src/floppy.cpp:593-602 | In every state reached from boot the driver's buffer passes its bounds test exactly when boot left no row of frames free at a place that the test refuses and a wrapping search comes to; a frame count of 0 or at least 5 modulo 16 rules such rows out |
| DmaBuffer.AlwaysAcceptable | src/floppy.cpp:593-602 | With such a frame count, up to 16 MB, every buffer granted at any time passes the test |
| DmaBuffer.ReachRefused | src/floppy.cpp:593-602 | Otherwise single frames lead to a state in which the driver panics over the buffer it was granted |
| DmaBuffer.HoldsTransferIff | src/floppy.cpp:341 | The buffer holds the fixed transfer exactly for a 1.44 MB drive |
| DmaBuffer.AcceptableIs | src/floppy.cpp:341 | The test asks for an address below 16 MB with room for 0x4800 bytes in its 64 KB |
| DmaBuffer.AcceptableFromBoot | src/floppy.cpp:593-602 | From boot on, with at least 16 MB of kernel memory every buffer passes the test; with less exactly when boot leaves no such row |
| DmaBuffer.BelowLimit | src/physical.cpp:136-144 | From boot on, after any run, what the DMA pool answers lies wholly below address 0x1000000 |
| FrameMap.Routed | src/physical.cpp:166-182 | In tiled pools every address below the end of memory is routed to the pool that holds it, others to none |
| FrameMap.SetStatusFlat | src/physical.cpp:101-114 | Setting the status of an address changes the status of its frame and no other |
| PhysicalMemory.LayoutTilesIff | src/physical.cpp:231-245 | The pools tile memory, and every address is routed to a pool that holds it, exactly when the kernel's share ends on a page boundary |
| PhysicalMemory.LinearAlloc | src/physical.cpp:212-222 | Placement moves on to the next multiple of 32 exactly from addresses with bit 4 set, and past the object |
| PhysicalMemory.ReserveLoopEndsIff | src/physical.cpp:205 | The loop ends exactly for sizes not within a page of 2^32 |
| PhysicalMemory.ReservesWholeRangeIff | src/physical.cpp:203-209 | A range is reserved to its last byte exactly when its offset into the first page leaves room |
| PhysicalMemory.ReserveRegions | src/physical.cpp:256-265 | Exactly the frames stepped over in regions whose type bit 0 is clear are reserved |
| PhysicalMemory.BootAccounts | src/physical.cpp:224-269 | After boot exactly the frames below the last bitmap's end and of reserved regions are in use |
| PhysicalMemory.BootIsExact | src/physical.cpp:256-269 | After boot a frame is in use exactly when it lies below the last bitmap's end or is stepped over in a region of an even type; reserved memory has type 2, available memory type 1 |
| PhysicalMemory.CoversIff | src/physical.cpp:203-209 | The frames stepped over are, modulo 2^20, as many from the region's first frame on as its size rounded up has pages |
| PhysicalMemory.ReservedForGood | src/physical.cpp:136-269 | From boot on, after any run, a frame of a region of an even type is in use and no allocation answers it |
| PhysicalMemory.BitmapsDisjoint | src/physical.cpp:239-241 | No byte belongs to two bitmaps, and all their bytes lie behind the kernel image and below the end that boot reserves |
| PhysicalMemory.AfterBoot | src/physical.cpp:136-269 | From boot on, after any run, no allocation answers a frame of the kernel image, the bitmaps, a reserved region or a live allocation, nor ever succeeds with 0, and frames are conserved |
| PhysicalMemory.PlaceBitmaps | src/physical.cpp:239-241 | The three bitmaps follow the kernel image and each other without overlap |
| PhysicalMemory.PhysicalMemory.AllocHimem | src/physical.cpp:156-164 | Tries HiMem, Default and DMA in this order |
| PhysicalMemory.PhysicalMemory.Alloc | src/physical.cpp:146-154 | Tries Default, then DMA |
| PhysicalMemory.PhysicalMemory.AllocDma | src/physical.cpp:136-144 | Tries DMA only |
| PhysicalMemory.PhysicalMemory.Free | src/physical.cpp:184-194 | Clears the frames one by one through `find_pool` |
| PhysicalMemory.PhysicalMemory.ReserveRange | src/physical.cpp:203-209 | Reserves one frame per page step, with 32-bit addresses |
| PhysicalMemory.PhysicalMemory.Init | src/physical.cpp:224-269 | Panics exactly without memory; otherwise leaves tiled pools in which exactly the frames below the bitmaps' end and those of regions of an even type are in use |
| PageWalk.RecursiveSlot | src/pagedir.cpp:13-24 | A pointer into the recursive window meets exactly the table entry it is computed for |
| PageWalk.WalksAgree | src/pagedir.cpp:26-78 | The kernel's walk by pointers equals the processor's walk, with 0 for unmapped pages |
| PageWalk.WalkIs | src/pagedir.cpp:26-78 | The walk in the bits and shifts of the processor manual |
| PageWalk.MapsIffWalks | src/pagedir.cpp:80-122 | An entry matches in the inverse search exactly when the walk of its virtual address gives the physical one |
| PageWalk.EntryRewritten | src/paging.cpp:191-195 | Rewriting one table entry changes the translation of its page and of nothing else |
| Paging.AddressSpace.InitDirectory | src/pagedir.cpp:13-24 | The last slot leads back to the directory; all other slots are unchanged |
| Paging.AddressSpace.Init | src/paging.cpp:36-54 | Maps consecutive large pages from the kernel base up to the end of linear memory and nothing else besides slot 0 |
| Paging.AddressSpace.InitUnmap0 | src/paging.cpp:80-84 | Afterwards only the linear map and the recursive window are mapped |
| Paging.LinearWalk | src/pagedir.cpp:26-78 | On the whole linear map the walk equals `kernel_virtual_to_physical`, which is inverted by its counterpart |
| Paging.AddressSpace.PhysicalToVirtual | src/pagedir.cpp:80-122 | Answers the least virtual address that walks to the physical one, or 0 when none does |
| Paging.InverseIsLinear | src/pagedir.cpp:80-122 | After slot 0 is unmapped the inverse of a linearly mapped address is base + p |
| Paging.InverseIsLowAlias | src/pagedir.cpp:80-122 | Before that, addresses of the first 4 MB are found at their low alias |
| Paging.AddressSpace.MapPage | src/paging.cpp:167-200 | Writes the one entry of the page when its slot has a table; nothing for unaligned addresses; the write itself faults without a slot, and goes astray under a large page |
| Paging.MappedWalks | src/paging.cpp:167-200 | A page whose entry was written walks to the given frame with its offset, and all other pages walk as before |
| Paging.AddressSpace.HandleFault | src/paging.cpp:260-321 | Fills in exactly the pages marked for it when no violation is reported, and otherwise changes nothing |
| Paging.FaultBits | src/paging.cpp:260-321 | Which bits of the error code, the directory entry and the table entry make the handler fill in a page, and which bits of the entry it then changes |
| Paging.OnlyLinearWalks | src/paging.cpp:36-84 | After slot 0 is unmapped, below the recursive window exactly the linear map is mapped |
| DemandPaging.StepFills | src/paging.cpp:287-302 | A fault that is filled in makes the page walk to a new frame plus offset and leaves all other translations alone |
| DemandPaging.StepKeepsFilled | src/paging.cpp:260-302 | A page is filled in only once, with a frame that was neither live nor reserved |
| DemandPaging.RunFills | src/paging.cpp:260-302 | After any run of faults the pages have distinct frames, each walks to its frame, and all other translations are unchanged |
| DemandPaging.EachPageOnce | src/paging.cpp:260-302 | No run of faults fills in a page twice |
| DemandPaging.AnswersIff | src/paging.cpp:293 | The allocator answers the handler with a frame exactly when some frame of memory is free |
| DemandPaging.EnoughFrames | src/paging.cpp:260-302 | With as many free frames as faults, every fault of a run is answered, so `RunFills` applies |
| DemandPaging.FrameIsFreshIff | src/paging.cpp:293-298 | The handler, which does not test the answer, maps a frame of its own exactly when some frame of memory is free |
| DemandPaging.SoundAtBoot | src/paging.cpp:36-84 | The boot mapping and the boot step lead to a state in which runs of demand faults can begin |
| Fat12Fat.PackOfUnpack | src/FAT12FAT.h:31-89 | Reading a table and writing it back restores every byte |
| Fat12Fat.UnpackOfPackIff | src/FAT12FAT.h:31-89 | Writing a table of even length and reading it back restores it exactly when all entries have 12 bits |
| Fat12Fat.UnpackedEntry | src/FAT12FAT.h:46-55 | What is unpacked are the entries as the FAT specification places them |
| Fat12Fat.EntryPacked | src/FAT12FAT.h:80-87 | What is packed are the low 12 bits of the entries at those places |
| Fat12Fat.GuardProtectsIff | src/FAT12FAT.h:72-75 | The space test keeps the writes inside the buffer for the empty table only; two entries into one byte pass it |
| Fat12Fat.Table.Read | src/FAT12FAT.h:31-65 | Panics exactly for lengths that are no multiple of 3; otherwise entry e is the low or the high 12 bits, for e even or odd, of the little-endian word at byte e + e / 2 |
| Fat12Fat.Table.Write | src/FAT12FAT.h:67-89 | Leaves bytes in which entry e is found at the same place, and the bytes behind them alone; refuses what the space test refuses, and otherwise overruns exactly the buffers that are too short |
| Fat12Fat.Table.NextCluster | src/FAT12FAT.h:21-29 | Looks up exactly the clusters inside the table, reads outside for exactly the one right behind it, and panics beyond |
| Fat12Fat.LinkOutside | src/FAT12FAT.h:21-65 | A table can lead there: one read from six bytes links a cluster to the cluster right behind its end |
| Fat12Volume.RootHoldsAllIff | src/FAT12FileSystem.cpp:65-68 | Rounding down leaves room for all root entries exactly when they fill whole sectors |
| Fat12Volume.StandardDisk | src/FAT12FileSystem.cpp:82-86 | On a 1.44 MB disk the root directory and clusters 2, 3, 4 and 202 lie at the bytes that the source notes |
| Fat12Volume.ChainIs | src/FAT12DirectoryEnum.h:27-39 | A chain follows the links of the table and stops at the first 0xFF0 or 0xFFF |
| Fat12Volume.OtherMarksPanic | src/FAT12DirectoryEnum.h:39 | The other end marks of the FAT specification, 0xFF8 to 0xFFE, make a table of fewer entries panic |
| Fat12Volume.ChainDistinct | src/FAT12DirectoryEnum.h:27-39 | A chain that reaches an end mark meets no cluster twice |
| Fat12Volume.ChainUnique | src/FAT12DirectoryEnum.h:27-39 | A table has at most one chain from a cluster |
| Fat12Volume.ChainShort | src/FAT12DirectoryEnum.h:27-39 | No chain is longer than the table, which bounds the expansion |
| Fat12Volume.ExpansionEndsIff | src/FAT12DirectoryEnum.h:27-39 | There is a chain exactly when a walk of as many links as the table has entries ends, and the walk yields it |
| Fat12Volume.CirclesForEver | src/FAT12DirectoryEnum.h:27-39 | A walk that has not ended, panicked or left the table after that many links never does |
| Fat12Volume.SectorsRightIff | src/FAT12DirectoryEnum.h:27-39 | The sector list, which keeps 16 bits of each number, is right exactly when clusters have no sectors or every cluster of the chain ends within the first 2^16 sectors |
| Fat12Volume.OneSector | src/FAT12FileSystem.cpp:100-119 | For such a chain of data clusters each entry is the right sector of the right cluster, inside the data area |
| Fat12Volume.SectorsDistinct | src/FAT12DirectoryEnum.h:27-39 | The list of such a chain has no duplicates |
| Fat12Directory.Expand | src/FAT12DirectoryEnum.h:21-40 | For every walk that stops, the expansion yields the chain's sectors in order, or panics or reads outside exactly where the walk does |
| Fat12Directory.DirectoryEnum.constructor | src/FAT12DirectoryEnum.h:21-40 | A new enumerator of an expanded chain stands at the first entry |
| Fat12Directory.DirectoryEnum.Next | src/FAT12DirectoryEnumBase.cpp:34-97 | The scan with its sector cache equals the scan of the flat list of entries and reads each sector it comes to once |
| Fat12Directory.NextTakesLive | src/FAT12DirectoryEnumBase.cpp:46-96 | A call yields the first live entry that is left, if any, and leaves the others |
| Fat12Directory.EnumerationIs | src/FAT12DirectoryEnumBase.cpp:34-97 | Repeated calls yield in order exactly the live entries before the first end mark, then nothing for ever |
| Fat12Directory.LiveEntries | src/FAT12DirectoryEnumBase.cpp:57-66 | The live entries are, in order, those before the first name beginning with 0x00 whose own name begins neither with 0x0E nor with 0xE5 |
| Fat12Directory.ExtractFileName | src/FAT12DirectoryEnumBase.cpp:13-31 | The buffer holds base and extension without spaces around a dot, is never overrun and always terminated |
| Fat12Directory.NameOfFile | src/FAT12DirectoryEnumBase.cpp:13-31 | Base and extension padded with spaces are read as base, dot and extension, and as the base alone without an extension |
| Floppy.BlockOfDisk | src/floppy.cpp:667-678 | The driver's slice of the cylinder it reads is the block's slice of the flat disk, whose blocks run through the tracks of both heads |
| Floppy.SectorOfBlock | src/floppy.cpp:570-585 | With 15 or 18 sectors to a track, block (2 * cylinder + head) * track + sector is that sector of the disk |
| Floppy.Capacity | src/floppy.cpp:570-615 | 80 cylinders are 1228800 or 1474560 bytes, and the driver's cylinder is the disk's; it has the 0x4800 bytes of a transfer exactly on a 1.44 MB disk |
| Floppy.FloppyDrive.ReadBlock | src/floppy.cpp:661-682 | One block read equals the read on values, with the recorded cylinder and the buffer it leaves |
| Floppy.FloppyDrive.Read | src/floppy.cpp:640-651 | Blocks are read in order up to the first failure, nothing else of the caller's buffer changes, and from a sound cache without a failed command it holds the slice of the flat disk |
| Floppy.ManySound | src/floppy.cpp:640-682 | As long as no command fails a read delivers the slice of the flat disk and keeps the cache sound |
| Floppy.UnfailingReads | src/floppy.cpp:640-682 | After any reads without a failed command the next read succeeds and delivers the slice of the flat disk |
| Floppy.CacheInvisible | src/floppy.cpp:640-682 | In any sequence of reads, failures included, in which after a failure the next block asked for lies in another cylinder, all that is ever delivered is right |
| Floppy.CacheInvisibleIff | src/floppy.cpp:669-681 | That condition is exact: a reader that comes back to the cylinder of a failure is delivered wrong bytes for some bytes left in the buffer |
| Floppy.RetryAfterFailureIff | src/floppy.cpp:670-681 | After a failed block read the next block is answered rightly, whatever was left in the buffer, exactly when it lies in another cylinder |
| Floppy.ReadIsRight | src/floppy.cpp:640-682 | A read that does not begin in the cylinder of a failure delivers only right bytes, and only its own failure leaves the cache unsound |
| SharedCount.StepKeepsInv | src/lib/libc++/src/memory.cpp:44-123 | Every atomic step of every thread keeps the counts equal to the handles held |
| SharedCount.RunInv | src/lib/libc++/src/memory.cpp:44-123 | So does every interleaving from the first handle on |
| SharedCount.DestroyedThenFreedOnce | src/lib/libc++/src/memory.cpp:44-109 | Under every interleaving the object is destroyed at most once and the block freed at most once and not before |
| SharedCount.AllReleasedAllCleanedUp | src/lib/libc++/src/memory.cpp:44-109 | When no handle is left the object has been destroyed once and the block freed once |
| SharedCount.HandleKeepsObject | src/lib/libc++/src/memory.cpp:44-53 | While a thread holds a shared handle the object is alive |
| SharedCount.LockOnlyWhileAlive | src/lib/libc++/src/memory.cpp:111-123 | `lock` never succeeds after the object was destroyed |
| SharedCount.GivesUpForGood | src/lib/libc++/src/memory.cpp:111-123 | When `lock` gives up, no thread holds a shared handle, then and in every continuation |
| SharedCount.LockFindsOwner | src/lib/libc++/src/memory.cpp:111-123 | While a thread holds one, `lock` does not give up: its exchange succeeds with one handle more, or the loop goes on with the current count |
| SharedCount.LockAloneIff | src/lib/libc++/src/memory.cpp:111-123 | Left alone, `lock` answers a handle exactly when some thread holds one, and null exactly when none does |
| SharedCount.LastReleaseDestroys | src/lib/libc++/src/memory.cpp:44-53 | A release goes on to destroy the object exactly when no shared handle is left |
| SharedCount.FastPathIff | src/lib/libc++/src/memory.cpp:94-104 | The load of `__release_weak` leads to the fast path exactly for the last reference of any kind |
| SharedCount.NeverStuck | src/lib/libc++/src/memory.cpp:44-123 | In every run each thread inside an operation has a next step, and each handle outside can be copied, released, given away or locked |
| SharedCount.NoOwnersForGood | src/lib/libc++/src/memory.cpp:111-123 | A shared count that has reached its end never rises again |
| SharedCount.NoStepAfterFree | src/lib/libc++/src/memory.cpp:76-109 | No step touches the block after it was freed |
| SharedCount.FastPathIsLast | src/lib/libc++/src/memory.cpp:79-104 | The load that finds the weak count at zero is made by the last reference only |
| Interlocked.LockStepKeeps | src/interlocked.h:91-100 | Every exchange keeps the word at 1 exactly while one thread is inside |
| Interlocked.MutualExclusion | src/interlocked.h:91-100 | Under every interleaving at most one thread is inside, and a spinning thread gets in with its next exchange exactly when none is |
| Interlocked.StrayLeaveIff | src/interlocked.h:97-100 | After a `leave` without `enter` no run lets two threads in exactly when no thread was inside |
| Interlocked.NoUpdateIsLost | src/interlocked.h:65-89 | Under every interleaving, with torn reads, the word is the start plus increments minus decrements modulo the word size |
| Interlocked.FailureIsProgress | src/interlocked.h:69-73 | A failed exchange after an untorn read means that another thread has completed an update |
| Interlocked.AnswerCounts | src/interlocked.h:65-89 | In every run an update answers the start plus all increments minus all decrements completed up to and with it, modulo the word size |
| Interlocked.TicketsDiffer | src/interlocked.h:65-76 | Between decrements, fewer increments than the word has values all answer different numbers |
| Interlocked.BegunIsCompleted | src/interlocked.h:65-89 | In every run the increments and decrements begun are those completed and those in the middle |
| Scheduler.FramesAreLast | src/scheduler.cpp:47-63 | After any events each task's saved frame is the one it was last switched out with, or its first |
| Scheduler.ResumesWhereItLeft | src/scheduler.cpp:47-63 | Every switch resumes a task with that frame |
| Scheduler.StackOfCurrent | src/scheduler.cpp:60-96 | After any events, while a task runs `esp0` is the end of the page that this task was added with |
| Scheduler.FirstFrameOnStack | src/scheduler.cpp:67-97 | The first frame of a task is the last 76 bytes of its own kernel stack |
| Scheduler.Waiting | src/scheduler.cpp:47-63 | While a task waits, its distance in the ring falls with every tick and grows at most with every new task |
| Scheduler.WaitIsBounded | src/scheduler.cpp:47-103 | No task waits for more ticks than its ring distance plus the tasks added meanwhile |
| Scheduler.TaskList.Next | src/scheduler.cpp:47-63 | The switch in place equals the switch on values and sets the kernel stack of the resumed task |
| Scheduler.TaskList.AddTask | src/scheduler.cpp:67-97 | A new task goes to the end of the ring with the end of its page as kernel stack and its first frame right below |
| HashConstrain.ConstrainIsMod | src/lib/libc++/include/__hash_table:123-129 | Masking for powers of two and the remainder otherwise are both the hash modulo the bucket count |
| HashConstrain.MaskedIff | src/lib/libc++/include/__hash_table:123-129 | The mask is used exactly for powers of two |
| HashConstrain.AndBits | src/lib/libc++/include/__hash_table:123-129 | The mask is taken bit by bit |
| HashTable.HashTable.BucketShape | src/lib/libc++/include/__hash_table:1852-1974 | Each bucket is contiguous, its slot points at the predecessor of its first node, and a slot is null exactly for an empty bucket |
| HashTable.HashTable.Find | src/lib/libc++/include/__hash_table:2329-2357 | Finds a node with the key exactly when there is one |
| HashTable.HashTable.InsertUnique | src/lib/libc++/include/__hash_table:1852-1912 | Inserts exactly when no node has the key, and otherwise changes nothing and answers the node that has it |
| HashTable.HashTable.InsertMulti | src/lib/libc++/include/__hash_table:1914-1974 | Adds exactly the node and keeps equal keys adjacent |
| HashTable.HashTable.Rehash | src/lib/libc++/include/__hash_table:2273-2325 | Ends for any bucket count, keeps the nodes and the adjacency of equal keys, and leaves all slots right |
| HashTable.HashTable.Splice | src/lib/libc++/include/__hash_table:2307-2320 | Moving a run of equal nodes behind its bucket's predecessor keeps the list linked |
| HashTable.HashTable.Remove | src/lib/libc++/include/__hash_table:2536-2585 | Takes out exactly the node and leaves the order of the others |
| HashMoves.MoveBuckets | src/lib/libc++/include/__hash_table:2300-2320 | Moving a run back keeps every bucket contiguous |
| HashMoves.RemoveBuckets | src/lib/libc++/include/__hash_table:2545-2585 | Removing a node keeps every bucket contiguous |
| HashBuckets.BucketsInsert | src/lib/libc++/include/__hash_table:1884-1905 | Inserting at the front of the list or inside the bucket keeps every bucket contiguous |
| BitFill.FillTrue | src/lib/libc++/include/__bit_reference:346-374 | Sets exactly the bits of the range |
| BitFill.FillFalse | src/lib/libc++/include/__bit_reference:316-344 | Clears exactly the bits of the range |
| BitFill.CountTrue | src/lib/libc++/include/__bit_reference:242-271 | Counts exactly the set bits of the range |
| BitCopy.CopyAligned | src/lib/libc++/include/__bit_reference:402-449 | Equal offsets: the destination holds the source's bits, all other bits are unchanged |
| BitCopy.CopyUnaligned | src/lib/libc++/include/__bit_reference:451-527 | Different offsets: the same |
| BitCopy.Copy | src/lib/libc++/include/__bit_reference:529-537 | Copies bit by bit, also to a lower overlapping position of the same array |
| BitCopyBackward.BackUnaligned | src/lib/libc++/include/__bit_reference:590-674 | Copies from the back with different offsets |
| BitCopyBackward.CopyBackward | src/lib/libc++/include/__bit_reference:541-684 | Copies bit by bit, also to a higher overlapping position of the same array |
| BitSwap.SwapUnaligned | src/lib/libc++/include/__bit_reference:758-856 | Different offsets: the two ranges exchange their bits, all other bits are unchanged |
| BitSwap.SwapRanges | src/lib/libc++/include/__bit_reference:708-867 | Exchanges two ranges of two arrays, or two disjoint ranges of one, bit by bit |
| BitSwap.CrossedJoint | src/lib/libc++/include/__bit_reference:708-867 | What happens to the words of both arrays taken together is the exchange between them |
| BitRotate.FrontSwapped | src/lib/libc++/include/__bit_reference:918-924 | Swapping the shorter front side behind leaves a smaller rotation |
| BitRotate.BackSwapped | src/lib/libc++/include/__bit_reference:935-941 | Swapping the shorter back side to the front leaves a smaller rotation |
| BitRotate.Rotate | src/lib/libc++/include/__bit_reference:898-945 | Ends for all lengths and offsets, exchanges the two sides bit by bit and answers where the first bit went |
| BitRotate.RotateBack | src/lib/libc++/include/__bit_reference:898-945 | Rotating back by the other side's length restores the array |

## Left out

- KernelHeap.Heap.Free: a pointer into memory that the heap does not own reads a header that is not there, so the argument is an object address of an owned chunk.
- KernelHeap.Heap.Alloc: the page source's answer is a parameter; `KernelAllocator` takes it from the frame allocator.
- KernelAllocator.Allocator.Free: as for `KernelHeap.Heap.Free`; what other users do with their frames meanwhile is not part of the class.
- Chunk memory is one map from addresses to chunk values; reading raw bytes of a chunk, and `_chunk_count`, `_free_object_count` and `_alloc_count`, which are never updated, are not modelled.
- PhysicalPools.PhysicalPool.Alloc: excluded are exactly the calls that would mark a run outside a bitmap (`FrameScan.SafeIff`, `PhysicalPools.ChainSafeIff`); they can be reached exactly as `FrameExact.ReachableWithinIff` says. What is then overwritten is not modelled.
- KernelAllocator.Allocator.Alloc: excluded are the same calls. The default pool ends within 64 MB (src/mm.cpp:68), so the 32-bit wrap of a kernel address is not modelled.
- FrameScan.Scan: index arithmetic is unbounded; frame counts of a 32-bit machine are at most 2^20, so sums of an index and a page count do not wrap for any run that fits a pool.
- PhysicalMemory.PhysicalMemory.ReserveRange: sizes within a page of 2^32, for which the source's 32-bit loop counter wraps for ever (`PhysicalMemory.ReserveLoopEndsIff`), are excluded.
- PhysicalMemory.PhysicalMemory.Free: the 32-bit wrap of an address behind the end of memory is not modelled; no allocated frame lies there.
- PhysicalMemory.PhysicalMemory.Init: the maximum scans of `find_memory_end` and `find_kernel_static_end` and multiboot parsing are left out; the boundaries and the regions are parameters.
- Paging.AddressSpace.MapPage: creating tables, TLB flushes, what an astray write does to ordinary memory, and the flag bits beyond present, writable, user, large and pending are not modelled.
- PageWalk.Walk: bits 20..13 of a large-page entry are taken to be address bits of no effect, as they are without PSE-36.
- `paging_build_kernel_table`, which is not called, and `paging_test`, which is disabled.
- DemandPaging.RunFills: tables are not shared between slots and no directory slot carries the mark for filling in; the contents of filled pages are not modelled.
- Fat12Fat.Table.NextCluster: what a read behind the table finds there is not modelled.
- Fat12Fat.Table.Write: what a write behind the caller's buffer destroys is not modelled.
- Fat12Directory.Expand: walks that never stop, for which the source loops for ever (`Fat12Volume.CirclesForEver`), are excluded.
- Fat12Directory.DirectoryEnum.Next: the result of a sector read is ignored by the source, so reads are taken to succeed; the objects made for entries are the entries themselves.
- Floppy.FloppyDrive.Read: drive kinds other than 1.2 MB and 1.44 MB have no sectors per cylinder, and the source divides by that number. The controller is an oracle that transfers the sectors of a cylinder in order and may fail on any command; commands, interrupts, retries and motors are not modelled, nor is what the fixed transfer writes behind a 1.2 MB drive's buffer.
- SharedCount.RunInv: the counts are unbounded integers, and memory orders weaker than sequential consistency are not modelled.
- Interlocked.NoUpdateIsLost: the word size is a parameter, because the C library's `uint64_t` is not 64 bits wide here.
- Scheduler.TaskList.AddTask: the registers in the first frame, of which only the first four bytes are cleared before, are not modelled.
- HashTable.HashTable.Rehash: load factors, allocators, exceptions and the choice of the bucket count are parameters; the hint versions of the insertions are left out.
- BitSwap.SwapUnaligned: a whole word that the source overwrites is cleared and then or-ed into.
- BitCopyBackward.BackUnaligned: when nothing is left to copy, the source still computes a mask by a shift of the whole word width, which it does not use; that shift is left out.
- `__count_bool_false`, which mirrors `__count_bool_true`.
- The disk cache, whose map is never filled, console, video, formatting, device registries, the boot loader's assembly beyond the two directory entries it sets up, and the rest of libc++.
