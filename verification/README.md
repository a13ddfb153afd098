# PinguinOS in Dafny

A model of the algorithmic core of PinguinOS, a freestanding 32-bit x86 kernel written in C,
with machine-checked proofs. Wrap-around, truncation and sign changes of its 32-bit arithmetic
are written out; the counters that stay unbounded are named under "Left out".
`dafny verify dfyconfig.toml` checks the whole project.

The code works by changing things in place, so most of the model is imperative: classes with
the kernel's fields, arrays for its tables, loops with invariants. Each class has an abstract
value (a set of used frames, a page map, a block list, a ring's contents) or a state record
`Now()`; its methods are proved to compute a function or relation on that value, and the
lemmas beside it prove what the subsystem promises.

## What is proved

**Memory.** `PhysAlloc` refines a set of used frames to a bitmap with a run search that is
sound and complete. `Paging` refines a finite map to a two-level page table living in frames
of that allocator; after copy-on-write the page reads the same, and of all other words only
those of the new frame and one entry of the page table change. `Swap` joins page tables,
frames, a slot bitmap, a lookup table and a disk whose transfers may fail: over every run with
at most 1024 pages each page keeps its bytes, frames and slots are conserved, and no word of
the disk changes outside the partition. `HeapList` and `Heap` prove first fit, splitting,
growth and coalescing on headers linked through memory: live payloads are disjoint and keep
their bytes over every call of up to 0xFFFFEFF0 bytes, also when growth stops half-way.
`HeapWrap` says what the larger calls do, and `HeapGrowth` puts growth on page tables and
frames. `Slab` proves the intrusive free chains and the three slab lists.

**Concurrency.** A section between two lock points is one atomic step, and the theorems are
about every interleaving: `Pipe` (first in, first out, end of file, never both sides blocked),
`Sync` (semaphore, recursive mutex, condition variable, reader-writer lock on the one
processor that runs threads), `MsgQueue` (priority order, first in first out within a
priority, no loss). `Scheduler` covers selection through the priority bitmap, round robin,
aging, and the life cycle of task slots and stacks; `SchedulerTime` says how long tasks sleep,
run, wait and stay zombies, in every run; `TaskCreation` takes task creation store by
store, interleaved with ticks and other creators.

**Files, arithmetic, codecs.** `Disk`, `Ext2` and `Fat32` prove that block-tree and
cluster-chain walks return exactly a slice of a flat byte sequence; `Ext2Dir` that listing and
lookup of a directory agree. `DiskImage`, `Ext2Image` and `Fat32Image` write inodes, tables,
directories and files down byte by byte, and prove that the readers give them back. `Division`
is 64-bit long division, `Dns` and `DnsWalk` the label codec, `Checksum` the Internet checksum
and the IPv4 header.

## Where the code does not keep the promise

These are exact: the lemma says when the code does what it should, and when it does not.

- `PhysAlloc.MarkFreeStaysInsideIff`: a start above 0xFFFFF000 rounds up to 0 and frees all
  memory. `PhysAlloc.MarkUsedCoversIff`: the header file says the end is rounded up; the code
  rounds it down.
- `Paging.ZeroIsAmbiguous`: 0 means "not mapped", but also address 0, 0xC0000000 and the start
  of a page mapped to frame 0. Copy-on-write inside a 4 MB window fails and loses a frame. The
  comments about the directory windows do not match the indices 224..255; the model follows
  the code.
- `Swap.OutPreservesIff`: the lookup table never drops an entry, so a page swapped out after
  1024 others is lost. `Swap.PageZeroLooksSwapped`: page 0 looks swapped out until the table
  is full.
- `Heap.GrowthCoversRequestIff`: sizes above 0xFFFFEFF0 wrap. Up to 0xFFFFFFE8 no page is
  mapped, and the request is served all the same: the new block lies at the break, over a page
  that demand paging maps, and the header of its rest is written below the break, into the
  last heap page. `HeapWrap.KeptForAllContentsIff`: payloads survive exactly when that header
  touches none, or for the one size that is not split. Larger sizes retry until every frame is
  gone; above 0xFFFFFFF8 they round to 0 and get the first free block, however short.
- `HeapGrowth.LastPageUnmappedIff`: `heap_grow` ignores the result of the mapping, so the break
  can move over a page that is not mapped: exactly when that page needs a new page table and
  takes the last frame. `HeapGrowth.BootNeedsFive`: the first four pages take five frames.
- `Slab.OneObjectBreaks`: with one object per slab a slab ends up in two lists.
- `SchedulerTime.SleepsIff`: a sleeper that is still current when its slice ends with nothing to
  switch to is run early (`SchedulerTime.SleepIsCutShort`); a deadline that wraps ends the sleep
  with the next tick (`SchedulerTime.NapIsExactIff`). `SchedulerTime.AgesInStepIff`: every
  multiple of fifty ends a slice, so aging and reaping only happen in ticks that switch to a
  task which was switched out in the handler; beside one running task a zombie is never reaped
  (`SchedulerTime.ReapedAloneIff`).
- `Ext2Dir.IsDirectoryIff`: block devices and sockets are listed like directories.
- `Ext2.BlockAddressExactIff` (blocks beyond 4 GB), `Ext2.TreeEndExactIff` (a bound
  that wraps from 256 KB blocks on, which affects no read: `Ext2.ReadIsSlice`),
  `Disk.WantedClipsIff` (offset plus size wraps and is not clipped),
  `Fat32.EntryInBufferIff` (sector sizes above 512 are accepted but leave the buffer).
- `Sync.ExclusionIff`: thread id 0 reads as "free". `Sync.UnlockSoundIff`: unlock does not
  look at its caller. `Sync.CondWaitReleasesIff`: waiting with a nested mutex keeps it.
- `Sync.HangReachableIff`: the first reader of a reader-writer lock sleeps with the spinlock
  held, and whoever spins for it has interrupts off, so the machine can hang as soon as one
  thread writes and two read. `Sync.DrainsIff`: this is the only way to get stuck.
- `Scheduler.PickIsLinearScan`: a ready task at priority 255 makes the pick NULL.
  `Scheduler.ZombieRunsAgainIff`: an exited task can be set running again.
- `TaskCreation.StepKeepsIff`: task creation leaves interrupts on. Two creators can take the
  same slot, and a tick can run a task that has no stack yet; with calls of the page allocator
  taken as one step, no other interruption by a tick, an entry of the scheduler or another
  creator breaks the task table. `TaskCreation.SharedSlotLosesAStack` and
  `TaskCreation.BootRunBreaks` say where these two lead.
- `Division.UDiv`: dividing by 0 gives 1. `Division.SDiv`: one quotient does not exist.
- `DnsWalk.RoundTripIff`: names with an empty part, a trailing dot, or a part of more than 191
  characters do not come back. `DnsWalk.EndsIff`: decoding goes on for ever when a position
  comes again with nothing added to the name, as with a pointer to itself
  (`Dns.SelfPointerNeverEnds`). `DnsWalk.ShortOutputConsumesIff`: what is left of a name that
  does not fit is read as lengths, or as pointers.
- `Checksum.SelfCheckIff`: the self-check fails exactly when the sum, as far as 32 bits keep
  it, and the checksum together do not fit 32 bits.
- `Fat32.ClusterLbaExactIff`: cluster numbers 0 and 1 lead to sectors before the data area.

## How to read it

`Words` has the machine words and single-bit operations, `RawMemory` memory as a map from
addresses to words, `Disk` sectors, blocks and the reader shared by both file systems. Every
other module is one source file (the heap is four modules; ext2 and the scheduler three, FAT32
and DNS two). A predicate `Inv` or `Valid()` is what every operation keeps; a theorem over runs
quantifies over sequences of actions.

## Model

| member | source | states |
|---|---|---|
| `PhysAlloc.Allocator.BitmapTest` | kernal/mm/phys_alloc.c:42-45 | bit test over packed words answers the abstract used flag of the frame |
| `PhysAlloc.Allocator.BitmapSet` | kernal/mm/phys_alloc.c:32-35 | setting a bit of a packed word changes exactly that frame |
| `PhysAlloc.Allocator.BitmapClear` | kernal/mm/phys_alloc.c:37-40 | clearing a bit of a packed word changes exactly that frame |
| `PhysAlloc.Allocator.MarkUsed` | kernal/mm/phys_alloc.c:156-167 | exactly the frames from the start page to the end rounded down become used; the free counter stays the number of clear bits |
| `PhysAlloc.MarkUsedCoversIff` | kernal/mm/phys_alloc.c:156-161 | every page touched by the range is covered iff the range is empty or ends on a page boundary |
| `PhysAlloc.Allocator.MarkFree` | kernal/mm/phys_alloc.c:169-180 | exactly the frames between the rounded bounds become free; the counter follows |
| `PhysAlloc.MarkFreeExact` | kernal/mm/phys_alloc.c:171-174 | for starts up to 0xFFFFF000 the freed frames are exactly those that lie entirely inside the byte range |
| `PhysAlloc.MarkFreeStaysInsideIff` | kernal/mm/phys_alloc.c:169-174 | marking free keeps inside its range iff rounding the start does not wrap, or the end is in page 0 |
| `PhysAlloc.MarkFreeWrapExample` | kernal/mm/phys_alloc.c:171-172 | a start in the last page frees frame 0 and all of memory |
| `PhysAlloc.Allocator.FirstFree` | kernal/mm/phys_alloc.c:186-187 | the search finds the lowest free frame above frame 0, or there is none |
| `PhysAlloc.Allocator.AllocPage` | kernal/mm/phys_alloc.c:183-196 | returns the lowest free frame, wiped and marked; 0 iff none is free, and then nothing changes |
| `PhysAlloc.Allocator.FreePage` | kernal/mm/phys_alloc.c:199-207 | clears that one frame; frame 0, frames beyond the end and free frames are ignored |
| `PhysAlloc.Allocator.FirstRun` | kernal/mm/phys_alloc.c:216-235 | the run search is complete: the lowest run of count free frames, or none exists |
| `PhysAlloc.Allocator.AllocPages` | kernal/mm/phys_alloc.c:210-236 | the lowest run of count free frames above frame 0, wiped and marked; 0 iff none exists; nothing else changes |
| `PhysAlloc.Allocator.TakeRun` | kernal/mm/phys_alloc.c:222-226 | marks exactly the run and lowers the counter by its length |
| `PhysAlloc.Allocator.FreePages` | kernal/mm/phys_alloc.c:238-242 | frees exactly the frames its wrapping addresses visit, except frame 0 |
| `PhysAlloc.ReleasedIsRange` | kernal/mm/phys_alloc.c:240-241 | without wrap the visited frames are count consecutive ones |
| `PhysAlloc.AllocThenFree` | kernal/mm/phys_alloc.c:210-242 | freeing what was just allocated restores bitmap and counter |
| `PhysAlloc.FreeUndoesAlloc` | kernal/mm/phys_alloc.c:210-242 | conservation: filling and clearing the same run is the identity, and the free count drops by its length in between |
| `PhysAlloc.RunsDisjoint` | kernal/mm/phys_alloc.c:210-236 | two runs handed out in a row share no frame |
| `PhysAlloc.CountFreeFill` | kernal/mm/phys_alloc.c:164-177 | the number of free frames after a uniform range changes hands |
| `Paging.AddressSpace.constructor` | kernal/mm/paging.c:66-101 | the initial directory: 256 MB from 0 on and 128 MB from 0x38000000 on map to themselves, 256 MB from 0xC0000000 on to address 0, nothing else is mapped |
| `Paging.WindowTarget` | kernal/mm/paging.c:84-101 | inside a window the entry base and the low 22 address bits give that target |
| `Paging.AddressSpace.GetOrAllocPt` | kernal/mm/paging.c:48-63 | a table for the slot, created from a wiped frame if asked for; no result exactly for windows, missing tables or no memory; the mappings do not change |
| `Paging.NewTable` | kernal/mm/paging.c:57-62 | installing an empty table changes no translation |
| `Paging.StoreEntry` | kernal/mm/paging.c:131-163 | storing one entry of one table changes the mapping of exactly one page |
| `Paging.AddressSpace.MapPage` | kernal/mm/paging.c:123-134 | 0 and one page remapped pointwise, or -1 (inside a window, or no frame for a table) and nothing changed |
| `Paging.AddressSpace.MapRange` | kernal/mm/paging.c:143-152 | maps a prefix of the range; stops at the first page that cannot be mapped and says so |
| `Paging.MapManyPointwise` | kernal/mm/paging.c:146-149 | closed form of a mapped range, with wrap-around of both addresses |
| `Paging.AddressSpace.UnmapPage` | kernal/mm/paging.c:155-165 | removes that page from the map; windows and other pages stay |
| `Paging.AddressSpace.GetPhys` | kernal/mm/paging.c:168-185 | the walk through directory and table agrees with the abstract map at every address |
| `Paging.ZeroIsAmbiguous` | kernal/mm/paging.c:173-183 | the result is 0 exactly for unmapped pages, address 0, address 0xC0000000, and the start of a 4 KB page mapped to frame 0 |
| `Paging.AddressSpace.CopyOnWrite` | kernal/mm/paging.c:194-205 | succeeds iff the page is mapped by a 4 KB entry to a nonzero frame and a frame is free; fails without effect, or inside a window after losing a frame |
| `Paging.CopyPreservesView` | kernal/mm/paging.c:199-204 | what every address reads after a copy: the page the same words through its new frame; the new frame the copy; one word of the page table the new entry; everything else what it was |
| `Paging.OthersReadTheSame` | kernal/mm/paging.c:199-204 | an address that leads neither to the new frame nor to that word reads what it read before |
| `Swap.Swapper.AllocSlot` | kernal/mm/swap.c:44-54 | reserves the lowest free slot; -1 iff all are taken |
| `Swap.Swapper.FreeSlot` | kernal/mm/swap.c:56-60 | clears that slot bit only; slots out of range are ignored |
| `Swap.Swapper.LookupSet` | kernal/mm/swap.c:63-72 | writes the first entry that is unused or holds the page; a full table is left alone |
| `Swap.Swapper.LookupGet` | kernal/mm/swap.c:75-80 | the slot of the first entry that holds the page, else -1 |
| `Swap.RecordedSpec` | kernal/mm/swap.c:63-80 | set then get: the page reads its slot back, others keep theirs; without room the set is lost |
| `Swap.RoomIff` | kernal/mm/swap.c:63-72 | an address can be recorded iff it has an entry or the table has entries for fewer addresses than it is long |
| `Swap.PageZeroLooksSwapped` | kernal/mm/swap.c:75-80 | for page 0 the lookup answers slot 0 instead of -1 until the table is full |
| `Swap.Swapper.SwapInit` | kernal/mm/swap.c:83-101 | an empty, consistent area of (size-1)/8 slots, at most 4096, from the sector behind the header on; the header has the letters SWAP and the low byte of the size, unless its write fails; no other word of the disk changes; too small a partition changes nothing |
| `Swap.Swapper.SaveFrame` | kernal/mm/swap.c:117-130 | slot reservation and disk write; a failed write gives the slot back |
| `Swap.Swapper.DropPage` | kernal/mm/swap.c:132-134 | unmapping and freeing the frame |
| `Swap.Swapper.SwapOut` | kernal/mm/swap.c:109-144 | refused iff not ready, nothing mapped (address 0 included) or no slot; else the page moves to the disk, or a failed transfer leaves only a free slot scribbled; a window page is saved and its frame freed, but stays mapped |
| `Swap.Swapper.LoadFrame` | kernal/mm/swap.c:151-160 | frame allocation and disk read; a failed read gives the frame back |
| `Swap.Swapper.Attach` | kernal/mm/swap.c:162-168 | mapping, slot and lookup entry change together |
| `Swap.Swapper.SwapIn` | kernal/mm/swap.c:147-174 | refused iff not ready or no frame; else the page comes back in a fresh frame, or a failed transfer leaves only a free frame scribbled |
| `Swap.WriteThenRead` | kernal/mm/swap.c:124-157 | slots do not overlap on the disk: a slot reads back what was written, others are untouched |
| `Swap.OutKeepsInv` | kernal/mm/swap.c:109-144 | after swapping out, a slot bit is set iff exactly one live entry owns it, iff the lookup table had room for the page |
| `Swap.InKeepsInv` | kernal/mm/swap.c:147-174 | swapping in keeps it too |
| `Swap.OutKeepsContent` | kernal/mm/swap.c:109-144 | swapping out changes the bytes of no other page, and keeps those of the page iff the lookup table had room for it |
| `Swap.InKeepsContent` | kernal/mm/swap.c:147-174 | swapping in changes the bytes of no page |
| `Swap.FailureKeepsContent` | kernal/mm/swap.c:125-160 | a failed transfer changes the bytes of no page |
| `Swap.OutPreservesIff` | kernal/mm/swap.c:138-139 | the bytes of a page swapped out survive iff the table has an entry for it or for fewer than 1024 pages |
| `Swap.SwapIsTransparent` | kernal/mm/swap.c:109-174 | over every run of swap_out and swap_in calls, failed ones included, each page keeps its bytes, as long as at most 1024 pages are ever swapped |
| `Swap.SwapStaysInPartition` | kernal/mm/swap.c:83-174 | over every run of swap_out and swap_in calls, failed ones included, no word of the disk changes outside the sectors of the partition behind its header |
| `Swap.SwapConserves` | kernal/mm/swap.c:109-174 | over every run frames and slots are conserved: a page that leaves memory frees one frame and takes one slot, a page that comes back does the reverse |
| `Swap.OnePageTooMany` | kernal/mm/swap.c:136-139 | page 1025 is lost by its first successful swap_out, and its slot is owned by nobody |
| `Swap.FreedWindowPageIsShared` | kernal/mm/swap.c:132-134 | after swap_out of a window page its frame is free and still mapped: when the next page comes back into that frame, both addresses lead to it and the window shows the other page |
| `Swap.FewPagesFindRoom` | kernal/mm/swap.c:63-72 | a table with at most 1024 pages in all has room for each of them |
| `HeapList.TakeSpec` | kernal/mm/heap.c:122-151 | splitting keeps order, gaps and footprint, and adds exactly one live block of fitting size; it splits iff at least 32 bytes are left for the rest |
| `HeapList.MarkFreeSpec` | kernal/mm/heap.c:187-189 | the freed block leaves the live set and its size leaves the used bytes |
| `HeapList.CoalesceSpec` | kernal/mm/heap.c:191-199 | after the pass no two neighbours are both free; no live block, sum or order changes |
| `HeapList.PayloadsDisjoint` | kernal/mm/heap.c:122-176 | different blocks share no byte, header or payload |
| `HeapList.AppendSpec` | kernal/mm/heap.c:161-173 | appending the grown block keeps the order |
| `HeapList.FootprintBound` | kernal/mm/heap.c:293-294 | headers and sizes never exceed the mapped total, used bytes never the sizes |
| `HeapList.FootprintExact` | kernal/mm/heap.c:293-294 | without gaps they are exactly the mapped total |
| `HeapList.FreeUndoesAlloc` | kernal/mm/heap.c:138-200 | a free right after an allocation restores the block list exactly, in a coalesced heap |
| `Heap.KernelHeap.Grow` | kernal/mm/heap.c:88-100 | as many pages as asked for, or a prefix; on failure the break stays advanced by what was mapped |
| `HeapGrowth.Growth.Grow` | kernal/mm/heap.c:88-100 | on page tables and frames: a page taken is mapped iff the frames are enough for it and its table, no other page changes, and the break moves in any case; false iff fewer pages were taken than asked for, which means the limit or no frame |
| `HeapGrowth.Growth.GrowPage` | kernal/mm/heap.c:91-97 | one page: taken iff a frame is free, mapped iff its slot has a table or one more frame is free |
| `HeapGrowth.LastPageUnmappedIff` | kernal/mm/heap.c:92-97 | all pages taken are mapped but possibly the last, and that one is not mapped iff it needs a table and took the last frame |
| `HeapGrowth.BudgetIff` | kernal/mm/heap.c:91-97 | the budget of the heap model: so many pages are mapped iff the frames cover them and their tables |
| `HeapGrowth.BootNeedsFive` | kernal/mm/heap.c:108 | heap_init gets its four pages mapped iff five frames are free, since the slot of the heap has no table yet |
| `Heap.GrowthCoversRequestIff` | kernal/mm/heap.c:90-159 | growth makes room for the request iff no 32-bit addition wraps, that is up to 0xFFFFEFF0 bytes, and then with as few pages as will do |
| `Heap.Align8Covers` | kernal/mm/heap.c:141 | the aligned size is the least multiple of 8 not below the request, or 0 iff that would be 2^32 |
| `Heap.KernelHeap.Init` | kernal/mm/heap.c:103-115 | one free block over four pages, or the panic |
| `Heap.KernelHeap.FindFit` | kernal/mm/heap.c:143-153 | the walk over the linked headers stops at the first free block that fits |
| `Heap.KernelHeap.TakeBlock` | kernal/mm/heap.c:122-150 | the stores of split and take turn the list into the split list; all live payloads keep their bytes |
| `Heap.TakeStoresLink` | kernal/mm/heap.c:126-148 | those stores link exactly that list and write inside that block only |
| `Heap.KernelHeap.FindLast` | kernal/mm/heap.c:170-171 | the walk ends at the last block |
| `Heap.KernelHeap.AppendBlock` | kernal/mm/heap.c:161-173 | the new block is linked behind the last one |
| `Heap.KernelHeap.Extend` | kernal/mm/heap.c:155-173 | growth as a whole: one free block more, or nothing but mapped pages |
| `Heap.KernelHeap.AllocRaw` | kernal/mm/heap.c:138-176 | first fit, else growth and one retry; every live payload keeps its bytes, except for aligned sizes above 0xFFFFEFF0 up to 0xFFFFFFE8, where the memory afterwards is given store by store; larger sizes run out of frames or get a block too short |
| `Heap.KernelHeap.PastTheBreak` | kernal/mm/heap.c:155-175 | a growth of no page: the panic iff no page can be mapped at the break; else the block there is linked, split and handed out, with exactly those stores |
| `Heap.KernelHeap.LinkPast` | kernal/mm/heap.c:161-173 | the header at the break, which claims nearly 4 GB, becomes the last of the linked list |
| `Heap.KernelHeap.TakePast` | kernal/mm/heap.c:122-151 | splitting it in 32 bits: the header of the rest goes below the break, modulo 2^32; only for the size 0xFFFFFFC8 nothing is split |
| `HeapWrap.KeptForAllContentsIff` | kernal/mm/heap.c:122-173 | such a request keeps all live payloads, whatever they hold, iff nothing is split or the 16 bytes of that header touch none of them |
| `HeapWrap.AllKeptIff` | kernal/mm/heap.c:122-173 | for given contents it keeps them iff nothing is split or every touched word already holds what is written |
| `HeapWrap.LastPageIsOverwritten` | kernal/mm/heap.c:122-173 | 0xFFFFF000 bytes: four words in a live block of the last page become a free header |
| `Heap.ServedByRetry` | kernal/mm/heap.c:158-175 | after a successful growth the retry takes the new block and does not grow again |
| `Heap.PtrBlock` | kernal/mm/heap.c:138-176 | a returned pointer is the payload of a block that was not live before, is long enough, and at most 47 bytes longer than the aligned size |
| `Heap.ServedKeepsTiling` | kernal/mm/heap.c:155-175 | as long as no growth fails part-way, headers and sizes add up to exactly the mapped total |
| `Heap.KernelHeap.Coalesce` | kernal/mm/heap.c:191-199 | the loop over linked headers computes the coalesced list and touches no live payload |
| `Heap.MergeStoresLink` | kernal/mm/heap.c:194-195 | the two stores of one merge link exactly the merged list |
| `Heap.KernelHeap.FreeRaw` | kernal/mm/heap.c:179-200 | exactly that block is freed and coalesced; a wrong magic number, so a second free, is the panic |
| `Heap.KernelHeap.Kzalloc` | kernal/mm/heap.c:204-209 | the outcome is that of the allocation; every byte of the payload up to the size is zero, the last one to three included; all other live payloads keep their bytes; when the memset is longer than the block, everything from there to the break is wiped |
| `Heap.KernelHeap.Krealloc` | kernal/mm/heap.c:222-233 | a block that is long enough stays; else one allocation is attempted, the old bytes reappear at the result and other payloads stay; when it fails the block stays live; a copy into a block that is too short is followed |
| `Heap.KernelHeap.MoveBlock` | kernal/mm/heap.c:228-232 | allocate, copy, free: the old bytes are at the new block, the old block is free again, all other payloads stay |
| `Slab.CacheGeometry` | kernal/mm/slab.c:60-74 | the stride is the least multiple of the alignment that holds an object; as few pages as give eight objects, at most four, and as many objects as they hold; two per slab iff the stride is at most 8192, one iff at most 16384; every alignment from 4 on, and 0, gives slots that can hold a link |
| `Slab.SlotsApart` | kernal/mm/slab.c:34-37 | slots of one slab never overlap |
| `Slab.ChainRoom` | kernal/mm/slab.c:34-39 | a chain of distinct slots has as many members as the slab has objects iff it covers all slots |
| `Slab.SlabCache.ChainSlots` | kernal/mm/slab.c:34-37 | the loop chains all slots in order and ends in NULL |
| `Slab.SlabCache.NewSlab` | kernal/mm/slab.c:23-41 | a slab with all slots free in an unused page run; NULL iff no descriptor or no run; no live object is touched |
| `Slab.NewSlabCore` | kernal/mm/slab.c:23-41 | adding it keeps the free chains, lists and runs consistent |
| `Slab.PopCore` | kernal/mm/slab.c:109-111 | popping the free list keeps consistency, and the popped slot held no live object |
| `Slab.GiveCore` | kernal/mm/slab.c:173-175 | pushing an object back keeps consistency |
| `Slab.UnlinkCore` | kernal/mm/slab.c:150-151 | unlinking a slab from the middle or head of a list keeps consistency |
| `Slab.PushCore` | kernal/mm/slab.c:118-124 | pushing a slab to a list head keeps consistency |
| `Slab.ObjectWriteCore` | kernal/mm/slab.c:128 | stores inside a live object disturb no free chain |
| `Slab.ObjectsDisjoint` | kernal/mm/slab.c:91-130 | objects of one cache never overlap, within and across slabs |
| `Slab.ObjectsAligned` | kernal/mm/slab.c:34-37 | every live object of a cache is a multiple of its alignment, up to a page |
| `Slab.SlabCache.TakeSlot` | kernal/mm/slab.c:108-125 | pop and list change computed on the linked descriptors, with its counter |
| `Slab.AllocKeepsInv` | kernal/mm/slab.c:91-125 | allocation hands out a free slot and keeps every slab in the list its free count calls for, unless a one-object slab comes from the empty list |
| `Slab.OneObjectBreaks` | kernal/mm/slab.c:115-119 | in that case full and empty name the same slab, which no valid cache allows |
| `Slab.SlabCache.Alloc` | kernal/mm/slab.c:91-130 | takes the first free slot of the first partial, else empty, else new slab; never returns a live object; the object is a multiple of the alignment, up to a page; NULL iff no slab has room and none can be made; every byte of the object is zero, the last one to three included; live objects keep their words |
| `Slab.SlabCache.Find` | kernal/mm/slab.c:146-157 | the search of one list finds the first slab whose run contains the address |
| `Slab.SlabCache.FindOwner` | kernal/mm/slab.c:139-159 | no slab is found iff no run of the cache contains the address |
| `Slab.OwnerUnique` | kernal/mm/slab.c:146-155 | at most one slab run contains a live object |
| `Slab.FreeKeepsInv` | kernal/mm/slab.c:133-187 | freeing makes exactly that object available again and keeps every slab in the right list |
| `Slab.FreedIsNextIff` | kernal/mm/slab.c:91-187 | the object freed last is the next one handed out iff its slab is not all free by that, or no other slab is partly free |
| `Slab.SlabCache.Free` | kernal/mm/slab.c:133-190 | NULL is ignored, an unknown address is the panic, a live object is returned; all other objects keep their words |
| `Disk.IdeRead` | kernal/drivers/ide.c:124-139 | success iff every sector can be read; then the bytes of the sectors, in order, and nothing outside them changes |
| `Disk.SectorsSplit` | kernal/drivers/ide.c:133-137 | reading in two parts is reading at once |
| `Disk.FlattenAt` | kernal/fs/ext2.c:271-285 | index arithmetic of concatenated blocks |
| `Disk.ByteOfContent` | kernal/fs/ext2.c:273-283 | looking a byte up by block and offset is indexing into the concatenation |
| `Disk.CopyChunk` | kernal/fs/ext2.c:276-284 | one copy extends the delivered bytes by the rest of the block, or up to the wanted size |
| `Disk.WantedClipsIff` | kernal/fs/ext2.c:264-266 | the range is clipped to the file size iff its end does not wrap |
| `Disk.DeliveredIsSlice` | kernal/fs/ext2.c:271-285 | when all wanted bytes are there, what was delivered is the slice of the file |
| `DiskImage.StoredIsRead` | kernal/fs/ext2.c:150-165 | reading sectors gives some bytes iff they stand on them, 512 to a sector, in order |
| `DiskImage.ReadWords` | kernal/fs/ext2.c:203-242 | word k of a table written low byte first is read back |
| `Ext2.SoundIsUsable` | kernal/fs/ext2.c:418 | block sizes 1024 shifted left by up to 21 divide the 32-bit range and hold whole sectors |
| `Ext2.ReadBlock` | kernal/fs/ext2.c:150-165 | success iff all sectors of the block can be read; then its bytes |
| `Ext2.BlockAddressExactIff` | kernal/fs/ext2.c:153-155 | the sectors read are those of the block iff it lies below 4 GB |
| `Ext2.ReadInode` | kernal/fs/ext2.c:168-195 | the inode at its slot of its group table; fails for inode 0, a group out of range or an unreadable block |
| `Ext2.InodesAreContiguous` | kernal/fs/ext2.c:180-192 | slot arithmetic is table position times inode size iff inodes fill blocks evenly, or the inode lies in the first block |
| `Ext2.ReadInodeBlock` | kernal/fs/ext2.c:198-249 | the block found through direct, single- or double-indirect entries; fails iff that block or a table on the way cannot be read |
| `Ext2.TreeEndExactIff` | kernal/fs/ext2.c:224 | the bound of the double-indirect range is exact iff the block size is below 256 KB |
| `Ext2.BlockNumberIsLeaf` | kernal/fs/ext2.c:201-243 | the case split with quotient and remainder is indexing into the flattened block tree, at every block size for the blocks up to the single-indirect ones |
| `Ext2.ReadBytes` | kernal/fs/ext2.c:271-285 | delivers the longest readable prefix of the wanted bytes and nothing else |
| `Ext2.VfsRead` | kernal/fs/ext2.c:255-289 | -1 without the inode or a block buffer, 0 at or past the end, else the number of delivered bytes as a signed value |
| `Ext2.ReadIsSlice` | kernal/fs/ext2.c:255-289 | for every block size, a readable file and an unwrapped range: exactly file[offset .. min(offset+size, i_size)] |
| `Ext2Image.RecordIsParsed` | kernal/fs/ext2.c:88-107 | mode, size and block numbers are read from an inode record written field after field |
| `Ext2Image.InodeReadsBack` | kernal/fs/ext2.c:168-195 | an inode written at its record of the table of its group is read back, where records fill blocks evenly |
| `Ext2Image.LeafIsWritten` | kernal/fs/ext2.c:198-249 | block numbers written in the inode and in single- and double-indirect tables are the leaves of the tree, in order |
| `Ext2Image.FileReadsBack` | kernal/fs/ext2.c:168-289 | a file whose record, block tree and data stand on the disk as written is read back: exactly the wanted slice, clipped to its size |
| `Ext2Dir.Nth` | kernal/fs/ext2.c:312-330 | the record with the wanted index in one block, or how many the block has |
| `Ext2Dir.Readdir` | kernal/fs/ext2.c:291-335 | the record with that index in the listing; nothing for what is no directory |
| `Ext2Dir.SameName` | kernal/fs/ext2.c:360-362 | the comparison succeeds iff the record has exactly that name |
| `Ext2Dir.IsDirectoryIff` | kernal/fs/ext2.c:299 | the test for a directory also takes block devices and sockets for one |
| `Ext2Dir.FindIn` | kernal/fs/ext2.c:354-380 | the first record of the block with that name |
| `Ext2Dir.Finddir` | kernal/fs/ext2.c:337-386 | the record and inode of the lookup; a record whose inode cannot be read sends it on to the next block |
| `Ext2Dir.FoundIsListed` | kernal/fs/ext2.c:291-386 | whatever is found is listed under that name with a readable inode |
| `Ext2Dir.ListedIsFound` | kernal/fs/ext2.c:291-386 | without duplicate names everything listed with a readable inode is found |
| `Ext2Dir.DirectoriesAgree` | kernal/fs/ext2.c:291-386 | lookup and listing agree: found iff listed with a readable inode |
| `Ext2Image.DirIsScanned` | kernal/fs/ext2.c:115-121 | directory records written field after field are well formed, and scanning gives those in use |
| `Ext2Image.DirectoryReadsBack` | kernal/fs/ext2.c:291-335 | the listing of a directory is exactly what was written in its blocks and is in use |
| `Fat32.ClusterToLba` | kernal/fs/fat32.c:102-105 | the sector address, wrapping in 32 bits |
| `Fat32.ClusterLbaExactIff` | kernal/fs/fat32.c:102-105 | for every cluster number it is the intended address iff that lies between 0 and 2^32; the intended address is in the data area iff the number is at least 2 |
| `Fat32.ClustersDisjoint` | kernal/fs/fat32.c:102-105 | different clusters have disjoint sectors |
| `Fat32.EntryInBufferIff` | kernal/fs/fat32.c:107-120 | of the sector sizes that mounting accepts, only 512 keeps every table entry inside the 512-byte buffer |
| `Fat32.NextCluster` | kernal/fs/fat32.c:107-120 | the low 28 bits of the entry; an unreadable table sector ends the chain |
| `Fat32.ReadSectors` | kernal/fs/fat32.c:123-134 | batches of at most 255 sectors read what one read would |
| `Fat32.Walk` | kernal/fs/fat32.c:163-168 | reaches the cluster of the offset iff no end mark comes before it |
| `Fat32.ReadClusters` | kernal/fs/fat32.c:175-187 | delivers the longest readable prefix of the wanted bytes and nothing else, for any table |
| `Fat32.Read` | kernal/fs/fat32.c:153-191 | terminates for every table; 0 past the end or before the chain reaches, -1 without memory, else the delivered count |
| `Fat32.ReadIsSlice` | kernal/fs/fat32.c:153-191 | for a well-formed chain: the slice of the concatenated clusters, clipped to the file size and cut only by the end of the chain |
| `Fat32.CyclicReadIsComplete` | kernal/fs/fat32.c:175-187 | in a cyclic table every wanted byte is delivered |
| `Fat32Image.EntryReadsBack` | kernal/fs/fat32.c:107-120 | the next cluster is the entry of the table that stands on the disk from fatStart on, without its upper four bits |
| `Fat32Image.ChainReadsBack` | kernal/fs/fat32.c:107-120 | clusters linked through that table are a well-formed chain |
| `Fat32Image.FileReadsBack` | kernal/fs/fat32.c:153-191 | a file whose table entries and clusters stand on the disk as written is read back: the wanted slice of its clusters, clipped to the file size and to their end |
| `Pipe.Ring.constructor` | kernal/ipc/pipe.c:61-67 | a new pipe is empty with one end of each kind |
| `Pipe.Ring.TakeBytes` | kernal/ipc/pipe.c:108-111 | the copy loop hands out the oldest bytes |
| `Pipe.Ring.PutBytes` | kernal/ipc/pipe.c:140-143 | the copy loop stores behind the newest byte |
| `Pipe.CellWraps` | kernal/ipc/pipe.c:109 | index wrap-around at 2^32 does not disturb the ring cell |
| `Pipe.Ring.Read` | kernal/ipc/pipe.c:94-117 | one locked section of a read: bytes iff the ring was not empty, and then as many as asked for or all there are, the oldest ones; end of file iff it was empty and no write end is open |
| `Pipe.Ring.Write` | kernal/ipc/pipe.c:129-151 | one locked section of a write, however often its loop turns: it stores until everything is stored or the ring is full; it fails iff then something is left and no read end is open |
| `Pipe.Ring.BeginWrite` | kernal/ipc/pipe.c:120-129 | a pipe without readers refuses the write |
| `Pipe.Ring.CloseRead` | kernal/ipc/pipe.c:154-162 | one read end fewer; dead iff no end is left |
| `Pipe.Ring.CloseWrite` | kernal/ipc/pipe.c:164-172 | one write end fewer; dead iff no end is left |
| `Pipe.ApplyKeepsInv` | kernal/ipc/pipe.c:94-172 | every section of every call keeps the system invariant |
| `Pipe.FifoUnderEveryInterleaving` | kernal/ipc/pipe.c:94-172 | delivered bytes followed by the ring are the accepted bytes; each write stored a prefix of its data in order, all of it if it returned its length; each read got exactly its part |
| `Pipe.EndOfFileMeansDrained` | kernal/ipc/pipe.c:99-103 | end of file iff no write end is open and every accepted byte was delivered |
| `Pipe.ReadReturns` | kernal/ipc/pipe.c:94-117 | a read returns nothing yet iff nothing is pending and a write end is open; else the first bytes pending, as many as asked for or all there are |
| `Pipe.EmptyResultIff` | kernal/ipc/pipe.c:94-117 | after any run, a read of at least one byte returns nothing iff no write end is open and every byte accepted has been delivered |
| `Pipe.WriteReturns` | kernal/ipc/pipe.c:120-151 | a write is done iff the rest fits; else the ring is full, and it fails without a reader and waits with one; one that has not begun is refused without a reader |
| `Pipe.EndsCloseIff` | kernal/ipc/pipe.c:154-172 | each end is open until it is closed, and the pipe is in use until both are |
| `Pipe.EndOfFileIsFinal` | kernal/ipc/pipe.c:99-103 | once drained, every later read returns no byte as long as nobody starts writing |
| `Pipe.NeverBothBlocked` | kernal/ipc/pipe.c:99-135 | exactly when a reader and when a writer stays blocked, hence never both |
| `Sync.Semaphore.Down` | kernal/sync/sync.c:19-36 | one round of the wait loop: granted iff the value is positive |
| `Sync.Semaphore.TryDown` | kernal/sync/sync.c:38-45 | succeeds iff the value is positive |
| `Sync.Semaphore.Up` | kernal/sync/sync.c:47-57 | one unit more, one waiter fewer |
| `Sync.SemaphoreConserves` | kernal/sync/sync.c:19-57 | over every run: value plus granted equals initial plus posted |
| `Sync.SemaphoreGrantsIff` | kernal/sync/sync.c:19-57 | after any run the next unit is granted iff fewer were granted than there were and were posted |
| `Sync.Mutex.Acquire` | kernal/sync/sync.c:69-97 | one round of the lock loop, with its waiter list: obtained iff the lock is free or own |
| `Sync.Mutex.TryAcquire` | kernal/sync/sync.c:99-108 | obtains the lock iff it is free or own |
| `Sync.Mutex.Release` | kernal/sync/sync.c:110-122 | undoes one acquisition, whoever calls |
| `Sync.MutexStepKeepsInv` | kernal/sync/sync.c:69-122 | every step of a bracketed caller with nonzero id keeps: one owner, depth its outstanding acquisitions |
| `Sync.MutualExclusion` | kernal/sync/sync.c:69-122 | at most one holder over every interleaving, with depth its outstanding acquisitions |
| `Sync.LockGrantedIff` | kernal/sync/sync.c:69-108 | a thread obtains the mutex iff no other thread holds it |
| `Sync.ExclusionIff` | kernal/sync/sync.c:71-88 | exclusion holds over all runs of a set of threads iff 0 is not among them, or is alone |
| `Sync.UnlockSoundIff` | kernal/sync/sync.c:110-122 | an unlock keeps the invariant iff its caller holds the lock or nobody does |
| `Sync.CondVar.BeginWait` | kernal/sync/sync.c:132-139 | queues the task, if there is one and a place is left, and gives the mutex up once |
| `Sync.CondVar.Signal` | kernal/sync/sync.c:144-149 | forgets the latest waiter, if there is one |
| `Sync.CondVar.Broadcast` | kernal/sync/sync.c:151-156 | forgets all waiters |
| `Sync.CondWaitReleasesIff` | kernal/sync/sync.c:132-142 | waiting lets another thread in iff the caller held the mutex once; relocking restores the depth |
| `Sync.RwLock.BeginRead` | kernal/sync/sync.c:167-171 | entering: one try for the spinlock, which spins on if it is taken; then the reader count |
| `Sync.RwLock.BeginReadUnlock` | kernal/sync/sync.c:176-180 | leaving: one try for the spinlock, then the reader count |
| `Sync.RwLock.WaitRound` | kernal/sync/sync.c:172-185 | one round of waiting for the write semaphore, with its waiter list |
| `Sync.RwLock.Post` | kernal/sync/sync.c:181-186 | giving the write semaphore back |
| `Sync.RwLock.EndSection` | kernal/sync/sync.c:173-182 | releasing the spinlock |
| `Sync.EnterKeepsInv` | kernal/sync/sync.c:167-171 | a reader that enters keeps the lock invariant |
| `Sync.LeaveKeepsInv` | kernal/sync/sync.c:176-180 | a reader that leaves keeps it |
| `Sync.DownKeepsInv` | kernal/sync/sync.c:172-185 | getting the semaphore keeps it |
| `Sync.UpKeepsInv` | kernal/sync/sync.c:181-186 | giving the semaphore back keeps it |
| `Sync.SpinKeepsInv` | kernal/sync/sync.c:169 | a reader that starts to spin keeps it |
| `Sync.SleepKeepsInv` | kernal/sync/sync.c:172 | a first reader that goes to sleep with the spinlock held keeps it |
| `Sync.ReaderWriterExclusion` | kernal/sync/sync.c:159-186 | over every interleaving: one writer at most, no reader beside it, semaphore 0 or 1 |
| `Sync.WriterEntersIff` | kernal/sync/sync.c:184-186 | a writer gets in iff nobody writes and nobody holds the semaphore for the readers |
| `Sync.FirstReaderEntersIff` | kernal/sync/sync.c:172 | the first reader gets in iff nobody writes |
| `Sync.SecondReaderHangs` | kernal/sync/sync.c:167-174 | writer inside, first reader asleep with the spinlock, second reader spinning: no step ever changes anything again |
| `Sync.StuckForEver` | kernal/sync/sync.c:169 | once a thread spins for a spinlock that another holds, no run changes the state |
| `Sync.StuckMeans` | kernal/sync/sync.c:169-172 | then the spinning thread is on its way in, and the holder is a first reader in sem_wait |
| `Sync.HangReachableIff` | kernal/sync/sync.c:167-186 | for all sets of reading and writing threads: a hang is reachable iff somebody writes and two threads read; the writer may be one of them |
| `Sync.HolderProceeds` | kernal/sync/sync.c:176-186 | a thread inside gets on with leaving iff it gets the processor; who keeps that lets go within two steps iff the lock does not hang |
| `Sync.DrainsIff` | kernal/sync/sync.c:167-186 | in every reachable state all threads can still get out, by going on with what they do, iff the lock does not hang |
| `Sync.NoDeadlock` | kernal/sync/sync.c:167-186 | in every reachable state with a thread inside, some thread inside can move iff the lock does not hang |
| `MsgQueue.Queue.FindSlot` | kernal/ipc/msgqueue.c:64-67 | the position before the first message of lower priority |
| `MsgQueue.Queue.ShiftUp` | kernal/ipc/msgqueue.c:69-70 | makes room by moving the tail up one place |
| `MsgQueue.Queue.ShiftDown` | kernal/ipc/msgqueue.c:101 | closes the gap at the head |
| `MsgQueue.InsertSpec` | kernal/ipc/msgqueue.c:63-77 | insertion keeps the order and puts the message last within its priority |
| `MsgQueue.Queue.Send` | kernal/ipc/msgqueue.c:51-82 | waits iff 32 slots are taken; else inserts the message, cut to 512 bytes |
| `MsgQueue.Queue.Receive` | kernal/ipc/msgqueue.c:91-127 | nothing iff empty; else the head leaves, and its first maxlen bytes at most are copied |
| `MsgQueue.SortedUnique` | kernal/ipc/msgqueue.c:63-67 | the order is determined: sorted queues with equal priority levels are equal |
| `MsgQueue.RunKeepsInv` | kernal/ipc/msgqueue.c:51-127 | in every state of every run: sorted, at most 32, and per priority sent = received followed by queued |
| `MsgQueue.ReceiveTakesEarliestOfHighest` | kernal/ipc/msgqueue.c:84-107 | a receive takes the earliest pending message of the highest priority |
| `Scheduler.PrioSpec` | kernal/sched/scheduler.c:60-64 | setting and clearing a priority touches that bit only |
| `Scheduler.HighBitSpec` | kernal/sched/scheduler.c:74 | 31 - clz is the highest set bit |
| `Scheduler.BitmapTop` | kernal/sched/scheduler.c:70-79 | the word-wise search finds what a linear scan over 256 priorities finds |
| `Scheduler.TaskScheduler.Rebuild` | kernal/sched/scheduler.c:82-90 | a bit is set iff a ready task has that priority |
| `Scheduler.TaskScheduler.PickNext` | kernal/sched/scheduler.c:136-150 | the round-robin loop computes the abstract pick |
| `Scheduler.PickIsLinearScan` | kernal/sched/scheduler.c:136-150 | over a rebuilt bitmap: NULL iff nobody is ready or somebody is at priority 255; else the first best task in cyclic order |
| `Scheduler.RealTimeIsNotPicked` | kernal/sched/scheduler.c:138-139 | a single ready task at priority 255 is never picked |
| `Scheduler.RoundRobin` | kernal/sched/scheduler.c:142-148 | repeated picks over an unchanged ready set reach every task of the top priority within 64 picks |
| `Scheduler.AgingPromotes` | kernal/sched/scheduler.c:105-118 | a ready task gains a level with every 500 agings, up to 254, and none besides |
| `Scheduler.TaskScheduler.WakeSleepers` | kernal/sched/scheduler.c:93-102 | one sweep over the task table |
| `Scheduler.TaskScheduler.AgeTasks` | kernal/sched/scheduler.c:105-118 | one sweep over the task table |
| `Scheduler.TaskScheduler.ReapZombies` | kernal/sched/scheduler.c:121-133 | one sweep over the task table, freeing stacks |
| `Scheduler.ReapKeepsInv` | kernal/sched/scheduler.c:127-130 | reaping frees two allocated frames, never of the current or another task |
| `Scheduler.TaskScheduler.EndSlice` | kernal/sched/scheduler.c:185-193 | demotion, end of the slice, ready again if it was running |
| `Scheduler.TaskScheduler.TimerHandler` | kernal/sched/scheduler.c:166-215 | the whole tick, with the rest of the handler run on resumption, is the abstract tick and keeps the invariant |
| `Scheduler.TickKeepsInv` | kernal/sched/scheduler.c:166-215 | a tick keeps the life-cycle invariant |
| `Scheduler.ZombieRunsAgainIff` | kernal/sched/scheduler.c:195-199 | an exited current task runs again iff its slice ends and nothing can be picked |
| `Scheduler.TaskScheduler.CreateTask` | kernal/sched/scheduler.c:245-275 | without interruption: the first unused slot with two fresh frames, the next id and the priority asked for; no effect when either is missing |
| `Scheduler.CreatedKeepsInv` | kernal/sched/scheduler.c:245-275 | an uninterrupted creation keeps the invariant and the stacks of others |
| `Scheduler.TaskScheduler.Start` | kernal/sched/scheduler.c:224-238 | the idle task in slot 0 is running in an otherwise empty system at time 0; fails iff no two frames are free |
| `Scheduler.TaskScheduler.TaskSetPriority` | kernal/sched/scheduler.c:283-292 | both priorities change together |
| `Scheduler.TaskScheduler.TaskExit` | kernal/sched/scheduler.c:295-304 | the current task becomes a zombie |
| `Scheduler.TaskScheduler.TaskSleep` | kernal/sched/scheduler.c:316-323 | the current task sleeps until a wrapping deadline |
| `Scheduler.TaskScheduler.TaskWake` | kernal/sched/scheduler.c:328-338 | sleeping and blocked tasks become ready |
| `Scheduler.LifeCycle` | kernal/sched/scheduler.c:93-338 | in every state of every run of all entries, creations uninterrupted: only the current slot can be running and it is in use; unused means no stack; stacks are allocated and disjoint; real-time by priority and by base go together |
| `SchedulerTime.WakesIff` | kernal/sched/scheduler.c:93-102 | the clock part of a tick: a task becomes ready iff it sleeps and its deadline is at or before the new time; its priority is then marked, nothing else changes |
| `SchedulerTime.SleepsIff` | kernal/sched/scheduler.c:93-323 | over every run a task that sleeps is asleep until the tick its deadline stands for, as long as nobody wakes it, unless it is still current when its slice ends with nothing to switch to |
| `SchedulerTime.NapIsExactIff` | kernal/sched/scheduler.c:97-320 | that tick is the one asked for iff the deadline does not wrap, or the clock wraps at once |
| `SchedulerTime.SleepIsCutShort` | kernal/sched/scheduler.c:195-320 | a sleep of five ticks that ends after one, since nobody else is ready |
| `SchedulerTime.WakeUndoesSleep` | kernal/sched/scheduler.c:316-338 | task_wake undoes task_sleep, but leaves the task ready with its priority marked |
| `SchedulerTime.SlicesDemote` | kernal/sched/scheduler.c:153-163 | after n slices a task has lost n levels, but keeps 1; idle and real-time tasks lose none |
| `SchedulerTime.GiveUpBits` | kernal/sched/scheduler.c:185-193 | which priorities are marked when the current task has given up its slice |
| `SchedulerTime.RunningUnmarked` | kernal/sched/scheduler.c:195-204 | whoever gets the processor is unmarked, nobody else |
| `SchedulerTime.PrioritySetSpec` | kernal/sched/scheduler.c:283-292 | a ready task is unmarked at its old priority and marked at its new one |
| `SchedulerTime.SliceIsTenTicks` | kernal/sched/scheduler.c:171-183 | a task keeps the processor for nine ticks, and the tenth ends its slice |
| `SchedulerTime.SliceEndRuns` | kernal/sched/scheduler.c:185-213 | when a slice ends the current task is running, whatever it was; a new one starts with no wait on its account |
| `SchedulerTime.ExitThenReaped` | kernal/sched/scheduler.c:121-304 | an exited task keeps stack and exit code for 200 passes of the reaper, then its slot is free |
| `SchedulerTime.ReapedAloneIff` | kernal/sched/scheduler.c:166-215 | beside a single running task a zombie is reaped with the 200th multiple of 50 ticks, iff the slices are out of step with the clock; in step, never |
| `SchedulerTime.TickAgesIff` | kernal/sched/scheduler.c:180-215 | a ready task that waits is aged by a tick iff the time is a multiple of 50, and the slice goes on or the next task was switched out in the handler |
| `SchedulerTime.RunInStep` | kernal/sched/scheduler.c:166-215 | from boot on, until the clock wraps, the slice in every state of every run began at a multiple of ten |
| `SchedulerTime.AgesInStepIff` | kernal/sched/scheduler.c:179-215 | so a tick ages and reaps iff it is a multiple of 50 and switches to a task that was itself switched out in the handler |
| `SchedulerTime.AgedBits` | kernal/sched/scheduler.c:110-116 | a promotion moves the mark of the priority |
| `SchedulerTime.FramesConserved` | kernal/sched/scheduler.c:121-275 | over every run without other allocations, free frames and stacks keep the same number together |
| `TaskCreation.UninterruptedIsCreated` | kernal/sched/scheduler.c:245-275 | the stores of alloc_task, one after the other, come to the one step of creation |
| `TaskCreation.StepKeepsIff` | kernal/sched/scheduler.c:245-275 | with creators interleaving store by store: a step keeps the creation invariant iff it is neither a search that finds a claimed slot nor a tick that runs a task without stack or context |
| `TaskCreation.RunIsSoundIff` | kernal/sched/scheduler.c:245-275 | the creation invariant holds in all states of a run iff none of its steps clashes |
| `TaskCreation.QuietMeansInv` | kernal/sched/scheduler.c:245-275 | then, whenever no creation is under way, the scheduler invariant holds |
| `TaskCreation.TickFits` | kernal/sched/scheduler.c:166-215 | a tick beside creations under way does not disturb their slots |
| `TaskCreation.TickRunsIff` | kernal/sched/scheduler.c:166-215 | a tick runs a given slot next iff the slice ends and the pick is that slot |
| `TaskCreation.TwoSearchesClash` | kernal/sched/scheduler.c:247-250 | two searches in a row find the same slot |
| `TaskCreation.StackIsLost` | kernal/sched/scheduler.c:255 | a creator that stores its stack over another in the same slot: that stack stays allocated and no slot has it |
| `TaskCreation.SharedSlotLosesAStack` | kernal/sched/scheduler.c:245-275 | two creators that found the same slot and both get pages: along every run in which both store their stack, one of them is overwritten, or a tick has reaped the first task before |
| `TaskCreation.HalfBuiltTaskRuns` | kernal/sched/scheduler.c:257-261 | a tick between the stores of state and stack can run a task that has no stack |
| `TaskCreation.BootRunBreaks` | kernal/sched/scheduler.c:166-275 | the run from sched_init that leads there: nine ticks, four steps of a creation by the idle task, and the tick that clashes |
| `Division.Align` | kernal/klib.c:283-285 | the largest shift of the divisor not above the dividend; no shift loses a bit |
| `Division.Subtract` | kernal/klib.c:286-287 | the subtract loop from there computes the quotient |
| `Division.UDiv` | kernal/klib.c:279-288 | floor of the quotient for every dividend and nonzero divisor; 1 for divisor 0 |
| `Division.UMod` | kernal/klib.c:289 | the remainder; 0 for divisor 0 |
| `Division.SDiv` | kernal/klib.c:290 | truncation toward zero, except that the least number divided by -1 stays itself |
| `Division.TruncatedUnique` | kernal/klib.c:290 | there is only one truncated quotient |
| `Division.SMod` | kernal/klib.c:291 | the remainder of the truncated division, also for the least number by -1; the dividend for divisor 0 |
| `Dns.EncodeName` | kernal/net/dns.c:53-70 | the wire form: labels with eight-bit lengths, then the root |
| `Dns.BodyOfJoin` | kernal/net/dns.c:58-67 | the encoder writes exactly the labels of the name, in order |
| `Dns.EncodesLabels` | kernal/net/dns.c:53-70 | the encoding is, byte for byte, a length and the characters for each label, and a zero |
| `Dns.TrailingDotIsLost` | kernal/net/dns.c:65-68 | a trailing dot leaves no trace |
| `Dns.DecodeName` | kernal/net/dns.c:73-108 | the loop, round by round; name and terminator stay inside the output buffer |
| `Dns.RoundTrip` | kernal/net/dns.c:53-108 | decoding an encoding gives the name back and consumes exactly its length, for labels of 1 to 191 characters |
| `DnsWalk.RoundTripIff` | kernal/net/dns.c:53-108 | a name comes back, with all of its encoding consumed, iff it is empty or every part between its dots, the one behind a trailing dot included, has 1 to 191 characters |
| `DnsWalk.RunFollowsWalk` | kernal/net/dns.c:81-103 | on an encoding, labels of any lengths included, the decoder ends as a walk over the lengths of the labels does |
| `DnsWalk.MisfitIsLost` | kernal/net/dns.c:61-99 | with a part of another length, that walk is led away or finds fewer characters than the name has |
| `DnsWalk.ShortOutputConsumesIff` | kernal/net/dns.c:99-107 | an output too short gets the beginning of the name; the consumed length is right iff none of the characters left over reads as an end or as a pointer, but that the last may read as a pointer |
| `DnsWalk.ShortOutputEnds` | kernal/net/dns.c:81-107 | if none of them reads as a pointer, decoding ends, within as many rounds as the encoding has bytes |
| `Dns.RoundTripThroughPointer` | kernal/net/dns.c:84-92 | labels followed by one pointer give all labels joined, and only labels and pointer are consumed |
| `Dns.LongLabelIsPointer` | kernal/net/dns.c:84-92 | a first label of 192 to 255 characters is read as a pointer, so the consumed length is wrong |
| `Dns.SelfPointerNeverEnds` | kernal/net/dns.c:84-92 | a pointer to itself is followed for ever |
| `DnsWalk.EndsIff` | kernal/net/dns.c:81-103 | for every packet: decoding ends iff no two rounds start at the same position with names of the same length, and then within length times (output size + 1) + 1 rounds |
| `DnsWalk.RepetitionNeverEnds` | kernal/net/dns.c:81-103 | two such rounds repeat for ever |
| `Checksum.IpChecksum` | kernal/net/net.c:28-39 | the complement of the folded 32-bit sum of all 16-bit words, odd byte included |
| `Checksum.WordSumIsByteSum` | kernal/net/net.c:28-35 | the sum of the words is that of all bytes by their place, an odd one at the end included |
| `Checksum.OddIsPadded` | kernal/net/net.c:33-34 | a block of odd length has the checksum of the block with a zero byte behind it |
| `Checksum.TwoFoldings` | kernal/net/net.c:36-38 | two foldings reach the end-around-carry value of any 32-bit sum |
| `Checksum.SelfCheckIff` | kernal/net/net.c:28-39 | with its checksum in a zeroed word a block of any length verifies iff what 32 bits keep of the sum leaves room for the checksum |
| `Checksum.SingleChangeIsDetected` | kernal/net/net.c:28-39 | in a block of any length, a change of one word is noticed unless it swaps the two forms of zero |
| `Checksum.Sender.BuildPacket` | kernal/net/net.c:284-305 | the frame: addresses, header fields at the places of RFC 791, payload, next id; its header verifies |

## Left out

- Drivers, boot code, interrupts, user interface and everything under `os/`: hardware access.
- TCP, the UDP receive ring, ARP, shared memory, the page cache, procfs, sysfs and devfs: no further invariant to prove, or none that the code keeps.
- `pmm_init` and the boot memory map: the model starts from a bitmap that is all used and the `pmm_mark_*` calls.
- The identity window covers 256 MB while the page allocator manages 1 GB: frames are reached directly, whatever their address.
- Page flags other than present and huge, TLB flushes and access rights: a translation is an address.
- Swap.Swapper.SwapIn: a slot other than the one recorded for the page is excluded; the caller must pass what `lookup_get` returned. The page-fault handler that would do so is not modelled.
- Swap.Swapper.SwapOut: pages whose frame is not in use, or is a page table, are excluded; `swap_out` looks at neither.
- Swap calls are atomic: the code locks only the slot bookkeeping, so two overlapping calls for the same page are not modelled.
- Heap.KernelHeap.Grow: takes its pages from a budget of pages that can be mapped; `HeapGrowth` has the frames and page tables behind it. The one page that can be left without a mapping (`HeapGrowth.LastPageUnmappedIff`) is no part of the heap model: no frame is left to map it on demand either, so a store there is the panic unless a frame has been freed before.
- The three padding bytes behind the heap's free flag belong to the flag's word, which the model stores as a whole.
- `kmalloc_aligned` and the leak table: no invariant beyond those of `kmalloc`.
- Heap.KernelHeap.AllocRaw: the page at the break is taken to be unmapped when a request that wraps stores there. After `PastBreak` the heap is no list of blocks any more, and no further call on it is modelled.
- Heap.KernelHeap.Kzalloc: after `Overrun` the memset is followed up to the break, not beyond.
- Heap.KernelHeap.FreeRaw: a pointer that is no live block although the used magic stands in front of it is excluded, because the code does not notice.
- Heap.KernelHeap.Krealloc: the same holds for its pointer; and after an overrun the free of the old block, or a copy to a block at the break, is not followed.
- Slab.CacheGeometry: alignments that are no power of two are excluded: the mask that rounds up is meaningless for them. With alignment 1 or 2 the stride can be no multiple of 4; links would then cross words, which word memory does not have. Sizes that wrap when they are rounded up are excluded: the code then divides by a stride of 0.
- `slab_cache_destroy`, the cache table and the predefined caches; descriptor addresses are a parameter, as `kmalloc` would give them, and slab memory is a word map of its own.
- Slab.SlabCache.Free: freeing an address inside a slab that is not a live object is excluded, because the code does not notice.
- Ext2Dir.Readdir: blocks whose records leave the block, or whose names hold a NUL, are excluded; the code reads on without looking.
- Ext2Dir.Finddir: the same holds here, and memory for the new node is always there.
- Ext2Dir.Nth: takes such well-formed blocks only.
- Ext2Dir.FindIn: takes such well-formed blocks only.
- Ext2Dir.SameName: takes records of such blocks only.
- Mounting, and the FAT directory code, which walks its records in the same way.
- Failures of `kmalloc` elsewhere in the ext2 code (in the reader they end the read like an unreadable block), and read errors that come and go during one call: a sector is readable or not.
- The upper four bits of a sector address, which the disk controller ignores.
- Fat32.Read: sector sizes above 512 are excluded, because the table lookup then leaves its buffer (`Fat32.EntryInBufferIff`).
- Fat32.NextCluster: the same sector sizes are excluded.
- Fat32.ReadSectors: the same sector sizes are excluded.
- Fat32.Walk: the same sector sizes are excluded.
- Fat32.ReadClusters: the same sector sizes are excluded.
- Ext2Image.InodeReadsBack: inode sizes that do not divide the block size are left to `Ext2.InodesAreContiguous`.
- Sparse ext2 files: a zero block number reads block 0, as in the code.
- Pipe creation beyond one slot, and reuse of a dead slot while a call is still inside it.
- The waiter lists are counted but wake nobody in the code either: blocked calls poll.
- Processors other than the one that runs threads: they halt after start-up. The spinlock inside a semaphore or mutex is never held across a sleep, so its section is one step.
- The value of a semaphore and the signed result of `pipe_write` are unbounded here; in C they wrap beyond 2^31.
- Message queue names and ids: the table of queues.
- The scheduler's incremental bitmap as an exact ready set: it loses bits shared by several tasks, so selection is exact only after `bitmap_rebuild`, which the code never calls.
- Task names, statistics, register contexts and stack contents; a context switch is a change of the current slot.
- Scheduler.TaskScheduler.CreateTask: is one step here, as at boot with interrupts off; creation that ticks interrupt is in `TaskCreation`, and the states on the way are in `TaskCreation.StepKeepsIff`.
- Scheduler.LifeCycle: takes creations as one step; the run with single stores is `TaskCreation.RunIsSoundIff`.
- TaskCreation.StepKeepsIff: calls of the page allocator are atomic; the code does not turn interrupts off in them either, so two creators could also get the same frames. The failing half says that the creation invariant breaks; what is lost afterwards is in `TaskCreation.SharedSlotLosesAStack` and `TaskCreation.BootRunBreaks`.
- TaskCreation.RunIsSoundIff: the same holds here.
- Permissions for `task_set_priority` and friends; `Scheduler.Step` lets any thread call any entry at any time.
- Dns.DecodeName: runs for a given number of rounds, because pointer cycles do not end (`DnsWalk.EndsIff` says how many are enough); a label that runs past the packet ends the model as `Overrun`, where the code reads what lies behind the packet.
- DnsWalk.ShortOutputConsumesIff: says nothing of a name with parts that do not come back anyway; where a left-over character reads as a pointer, whether decoding ends is up to `DnsWalk.EndsIff`.
- Division.SDiv: negating the least number is undefined in C; the model wraps, as the machine does.
- The rest of `klib.c`, the rest of `net.c` and of the DNS resolver.
