# Ferrite kernel: a verified model

This project models the parts of the Ferrite kernel whose safety rests on invariants that no single function states, and proves those invariants with Dafny 4.11. `dafny verify dfyconfig.toml` checks all of it.

## What is modelled

**The memory stack.** `PowersOfTwo`, `Bitmap`, `BuddyPool`, `BuddyInvariant`, `BuddyCarving` and `BuddyTheorems` describe the buddy allocator on values: free lists per order, a page bitmap, splitting, XOR merging, carving. `Buddy` is the allocator itself, a class with list heads, node links and a byte array that are changed in place, each method proved against those functions. The bitmap and the lists do not say the same thing: merging sets the bits of the absorbed half and splitting never clears them. What holds instead is that no two buddies of one order are both listed with all bits clear, and everything else follows from it. `KernelHeap` puts kmalloc and kfree on top, `Frames` a one-page interface, `SharedBuddy` both on one allocator as the kernel runs them, `Paging` fork's copy of the page tables and their release (two-level tables as in section 4.3 of volume 3A of the Intel Software Developer's Manual), `HeapExtents`, `HeapList` and `VirtualMemory` the vmalloc heap, whose list nodes live in the pages they describe, and `SharedHeap` what other processes see of it.

**ext2.** `DirBlock`, `DirTheorems` and `Ext2Dir` are directory records chained by length inside a block; `GroupSpace` and `Ext2Alloc` the block and inode bitmaps with their three levels of counts.

**exec.** `ExecArgs` packs argument strings downward into pages taken on demand and scans them upward again.

**Sockets.** `SocketWorld` is the AF_UNIX state machine on values with all its interleavings, `UnixSocket` the objects it is implemented with.

**References.** `InodeCache`, `PathWalk`, `FileRefs` and `Syscalls` follow every reference to an inode or an open file through lookup, open, close, chdir, fchdir, fork, exit and wait.

**Scheduling and time.** `Scheduler` is the round-robin loop; `Epoch` the kernel's and userspace's calendar arithmetic against one calendar and the expression of IEEE Std 1003.1-2017, Base Definitions, section 4.16.

## What the proofs found

Where a property one would expect is false of the code, the code is kept and the exact condition is proved.

- `remove_from_free_list` reads the second node of an empty list in some run exactly when the pool is not a power of two and the map still has bits for the block that would complete it (`BuddyTheorems.EmptyReadReachableExactly`); free memory from 1 MiB to 13 MiB makes such a pool (`Buddy.LayoutReadsEmptyList`). The model treats that read as "not found" and reports it.
- Allocating and freeing at once restores every list exactly when the rest of the block that was cut has clear bits and that block does not itself merge (`BuddyTheorems.AllocThenFree`); a block with all bits clear is such a one. A pool of 2^m pages can come to refuse a request for all of it, with nothing handed out, exactly when it has two pages or more: half of it taken and freed, twice over, is enough (`BuddyTheorems.WholeRefusableExactly`).
- vmalloc's 32-bit size holds the request exactly when the request and its header, rounded, do not wrap (`VirtualMemory.TotalSizeHoldsExactly`). A wrapped request is served all the same, and the free list survives exactly when the wrapped size is not zero: a request of 0xFFFFF001 bytes, for one, writes a header over the node it should have been split from (`VirtualMemory.VirtualHeap.Vmalloc`, `VirtualMemory.WrappedSizeExactly`).
- Each page vmalloc finds still mapped costs one frame; the loss, and the frames at which the kernel aborts, are counted exactly.
- Above 256 MiB of memory the direct map covers the first page of the vmalloc heap, and vmalloc_init writes its first node over it (`VirtualMemory.HeapUnmappedExactly`, `VirtualMemory.VirtualHeap.Initialize`).
- A heap page that one process comes to map is seen by the others exactly when it is among the heap's first 1024: later tables go into the running process's directory only (`SharedHeap.HeapPageSeenExactly`).
- `ext2_write_entry` keeps a block well formed exactly when the first record with any slack has room: it never looks for a better one (`DirTheorems.InsertKeepsWellFormedExactly`; two writes and a delete lead to such a block, `DirTheorems.WriteBreaksBlock`).
- The walk of `ext2_write_entry` has no bound of twelve blocks and no test for holes: it goes on into block 0, an indirect block or past the pointers exactly when the size counts more blocks than it can reach and no record of those has slack; it passes the directory's size exactly when no record up to it has slack and another starts behind it in the last block (`Ext2Dir.Directory.WriteEntry`, with directories that do in `Ext2Dir.DirectoryWithHole` and `Ext2Dir.DirectoryCutShort`).
- `ext2_delete_entry` on the first record of a block leaves the name findable or breaks the block (`DirTheorems.RemoveWorksExactly`, with an example in `DirTheorems.RemoveFirstExample`).
- The argc/argv vector may reach a page nobody allocated; exactly when is `ExecArgs.VectorInArgumentPagesExactly`, and one argument of 4090 letters does it (`ExecArgs.VectorOutsideExample`).
- `unix_accept` keeps what sockets promise exactly when it lets in another socket that was never joined, `unix_connect` exactly when no connected socket is joined to the one that connects; neither is checked (`SocketWorld.AcceptKeepsExactly`, `SocketWorld.ConnectKeepsExactly`, with runs that get there in `SocketWorld.AcceptByConnectedClient` and `SocketWorld.ConnectByConnectedClient`). Callers who connect only sockets that never connected and accept only on sockets not connecting or connected never get there (`SocketWorld.OrderlyRunsAreGuarded`).
- A lookup through a component that is a regular file calls a NULL pointer; the model says when (`PathWalk.Lookup`, outcome `Fault`; `PathWalk.FaultExample`).
- A lookup can fail for want of a slot in the inode cache: exactly when some place on the way is neither cached nor finds a free slot while the one before is held (`PathWalk.WalkInExactly`).
- `fd_get` lets descriptor 64 through, one past the table, and no other: close and fchdir then end in the outcome `PastTable`.
- The loader runs past its local array exactly when there are more than ten arguments (`ExecArgs.ArgPages.ScanStrings`).
- Freeing the number of a bitmap's own block is not refused; the reservation of those blocks is lost exactly then (`Ext2Alloc.Ext2.FreeBlock`).
- `to_epoch` undoes `from_epoch` exactly from 2000-01-01 on: earlier years are stored as 2000 (`Epoch.EpochComesBackExactly`). Times before 1970 are read as unsigned by the kernel and end in no date at all in userspace; the two clocks agree exactly from 1970 on (`Epoch.BothClocks`).
- docs/src/architecture/buddy.md and the code disagree on the bitmap (the code tests every bit of a buddy and sets the absorbed half's bits when it merges); the model follows the code.

## Reading the contracts

Kernel aborts are outcomes (`Aborted`, `Halted`, `Fault`). What others do (interrupts, other processes, memory running out, permission checks, what a disk lookup finds) is a parameter. Ghost values carry history: who owns a page, which frames are held, what a socket has sent. Methods that change state name the new state as a function of the old; the theorems are about those functions.

## Model

| member | source | states |
|---|---|---|
| PowersOfTwo.FlipBitIsXor | kernel/src/memory/buddy_allocator/buddy.c:188 | the address arithmetic used for a buddy is XOR with one bit: that bit changes and no other |
| PowersOfTwo.BuddyIsOtherHalf | kernel/src/memory/buddy_allocator/buddy.c:186-190 | an aligned block's buddy is the other half of the aligned block twice its size, and the buddy of the buddy is the block |
| PowersOfTwo.FloorLog2Unique | kernel/src/lib/math.h:20-27 | floor_log2 is the one exponent whose power is at most n while the next is above |
| Bitmap.SetByte | kernel/src/memory/buddy_allocator/buddy.c:148-157 | or-ing a byte with a shifted 1 sets that bit of the map and no other |
| Bitmap.ClearByte | kernel/src/memory/buddy_allocator/buddy.c:129-139 | and-ing with the complement clears that bit and no other |
| Bitmap.SetBit | kernel/src/arch/x86/bitops.h:12-21 | a bit set in place |
| Bitmap.ClearBit | kernel/src/arch/x86/bitops.h:23-31 | a bit cleared in place |
| BuddyInvariant.AllocKeeps | kernel/src/memory/buddy_allocator/buddy.c:211-240 | an allocation keeps the whole invariant (tiling, lists, bits of handed-out pages, no two clear listed buddies) and hands out a block nobody had |
| BuddyInvariant.SplitKeeps | kernel/src/memory/buddy_allocator/buddy.c:231-236 | splitting down keeps the tiling and never lists two clear buddies |
| BuddyInvariant.AbsorbKeeps | kernel/src/memory/buddy_allocator/buddy.c:196-204 | one merge step keeps it |
| BuddyInvariant.MergeKeeps | kernel/src/memory/buddy_allocator/buddy.c:186-208 | the merge loop and the final insertion keep it, for any pool |
| BuddyInvariant.DeallocKeeps | kernel/src/memory/buddy_allocator/buddy.c:178-209 | freeing a block in hand keeps it and takes exactly that block from the handed-out ones |
| BuddyCarving.CarveKeeps | kernel/src/memory/buddy_allocator/buddy.c:277-295 | the carving loop lists at most one block per order, of strictly decreasing order, each aligned to its size, and they tile the pool |
| BuddyCarving.InitialInv | kernel/src/memory/buddy_allocator/buddy.c:271-295 | the carved pool meets the invariant for every number of pages, all of them free |
| BuddyCarving.LastBlock | kernel/src/memory/buddy_allocator/buddy.c:280-295 | the smallest block carved is the pool size's lowest bit, at the end of the pool |
| BuddyTheorems.EveryRunKeepsThePartition | kernel/src/memory/buddy_allocator/buddy.c:178-240 | after any run of allocations and matching frees, free and handed-out blocks are aligned, pairwise disjoint and cover the pool, and handed-out pages have their bits set |
| BuddyTheorems.ConsistentIsPartition | kernel/src/memory/buddy_allocator/buddy.c:178-240 | the invariant means exactly such a partition |
| BuddyTheorems.AllocFailsExactlyWhenNothingFits | kernel/src/memory/buddy_allocator/buddy.c:213-225 | buddy_alloc fails exactly when no free block of the order or above is left |
| BuddyTheorems.ClearRangeIsOneBlock | kernel/src/memory/buddy_allocator/buddy.c:74-93 | an aligned range of free pages whose bits are all clear lies inside one free block |
| BuddyTheorems.ClearBuddyIsNode | kernel/src/memory/buddy_allocator/buddy.c:192-198 | during a merge a buddy inside the pool that is_block_free accepts is a node of exactly that order's list |
| BuddyTheorems.EveryRemovalSucceeds | kernel/src/memory/buddy_allocator/buddy.c:192-198 | in a power-of-two pool, in every run, remove_from_free_list finds the buddy whenever it is called and never meets an empty list |
| BuddyTheorems.EmptyReadReachableExactly | kernel/src/memory/buddy_allocator/buddy.c:109-110 | the unguarded head->next meets an empty list in some run if and only if the pool is no power of two and the map has bits for the block that would complete it |
| BuddyTheorems.EmptyReadWitness | kernel/src/memory/buddy_allocator/buddy.c:109-110 | the run that does it: allocate the last carved block and free it |
| Buddy.LayoutReadsEmptyList | kernel/src/memory/buddy_allocator/buddy.c:242-271 | free memory from 1 MiB to 13 MiB is laid out as 1280 pages with 3072 bits of map, a pool in which that read is reached |
| BuddyTheorems.AllocThenFree | kernel/src/memory/buddy_allocator/buddy.c:178-240 | freeing an allocation at once restores every list, element for element, if and only if the rest of the block it was cut from has clear bits and that block does not itself merge |
| BuddyTheorems.AllocThenFreeClearBlock | kernel/src/memory/buddy_allocator/buddy.c:178-240 | that is so whenever the block taken had all bits clear |
| BuddyTheorems.MergeUndoesSplit | kernel/src/memory/buddy_allocator/buddy.c:186-236 | merging takes back level by level what splitting put on the lists |
| BuddyTheorems.AllocIsExact | kernel/src/memory/buddy_allocator/buddy.c:211-240 | an allocation list by list and bit by bit: the head of the first list from the order on that is not empty, one upper half left on each list passed over, the block's bits set and no others |
| BuddyTheorems.FreeIsExact | kernel/src/memory/buddy_allocator/buddy.c:178-209 | a free list by list and bit by bit: it joins level by level up to the first at which the buddy is not all clear or lies past the map, those buddies leave their lists, the joined block heads the last one; the freed bits end up clear, the absorbed upper halves set |
| BuddyTheorems.FreedBitsAreClear | kernel/src/memory/buddy_allocator/buddy.c:181 | after freeing a block in hand every bit of it is clear |
| BuddyTheorems.BothHalvesJoin | kernel/src/memory/buddy_allocator/buddy.c:181-205 | after any run: both halves of a block in hand, freed one after the other in either order, end as one free block of the order above or a larger one |
| BuddyTheorems.HalvesStayApart | kernel/src/memory/buddy_allocator/buddy.c:178-240 | half of a pool of 2^m pages taken and freed, twice over: nothing is handed out and the pool is two blocks that do not merge |
| BuddyTheorems.WholeRefusableExactly | kernel/src/memory/buddy_allocator/buddy.c:178-240 | some run ends with nothing handed out and a request for the whole pool refused if and only if the pool has two pages or more |
| Buddy.LayoutIsSound | kernel/src/memory/buddy_allocator/buddy.c:242-271 | for every page-aligned memory with room for a page after the map, up to and including one that ends at 1 GiB, the base is aligned to the largest block and lies strictly below the end |
| Buddy.LayoutIsLeast | kernel/src/memory/buddy_allocator/buddy.c:248-266 | and nothing more is given up: the map is the fewest words with a bit per page, the base the first address past it aligned to the largest block with room there |
| Buddy.MapCoversPages | kernel/src/memory/buddy_allocator/buddy.c:248-250 | the map has a bit for every managed page |
| Buddy.BootPoolInv | kernel/src/memory/buddy_allocator/buddy.c:242-296 | the pool of that layout meets the invariant |
| Buddy.BuddyAddress | kernel/src/memory/buddy_allocator/buddy.c:187-190 | XOR on addresses is XOR on page indexes when the base is aligned |
| Buddy.BuddyPhysicalAddress | kernel/src/memory/buddy_allocator/buddy.c:187-190 | the same for the physical address the loop uses |
| Buddy.BuddyAllocator.Init | kernel/src/memory/buddy_allocator/buddy.c:242-296 | buddy_init builds exactly that pool in its lists, links and bytes |
| Buddy.BuddyAllocator.CarvePool | kernel/src/memory/buddy_allocator/buddy.c:277-295 | the carving loop in place |
| Buddy.BuddyAllocator.IsBlockFree | kernel/src/memory/buddy_allocator/buddy.c:74-93 | true exactly when every bit of the block is in the map and clear |
| Buddy.BuddyAllocator.RemoveFromFreeList | kernel/src/memory/buddy_allocator/buddy.c:95-122 | unlinks the node if it is listed, says whether it was, and reports the read of an empty list |
| Buddy.BuddyAllocator.MarkFree | kernel/src/memory/buddy_allocator/buddy.c:124-140 | clears exactly the block's bits; the bounds abort is not reached for blocks of the pool |
| Buddy.BuddyAllocator.MarkAllocated | kernel/src/memory/buddy_allocator/buddy.c:142-158 | sets exactly the block's bits; the bounds abort is not reached |
| Buddy.BuddyAllocator.BuddyAlloc | kernel/src/memory/buddy_allocator/buddy.c:211-240 | the lists, links and bytes become those of the specified pool, the address is the block's, NULL exactly when none fits |
| Buddy.BuddyAllocator.Split | kernel/src/memory/buddy_allocator/buddy.c:231-236 | the splitting loop in place |
| Buddy.BuddyAllocator.BuddyDealloc | kernel/src/memory/buddy_allocator/buddy.c:178-209 | the same for freeing, with the empty-list read reported exactly when it happens; what that pool is, list by list and bit by bit, is `BuddyTheorems.FreeIsExact` |
| Buddy.BuddyAllocator.MergeOnce | kernel/src/memory/buddy_allocator/buddy.c:186-205 | one turn of the merge loop in place |
| Buddy.BuddyAllocator.OwnerWrites | kernel/src/memory/buddy_allocator/buddy.c:162-164 | whoever holds a block may overwrite its words: no free list passes through them |
| KernelHeap.CeilLog2IsLeast | kernel/src/lib/math.h:32-39 | ceil_log2 is the least exponent whose power is not below n |
| KernelHeap.BlockHoldsRequest | kernel/src/memory/kmalloc.c:27-30 | the block holds header and request, and no smaller order would |
| KernelHeap.Kmalloc.Allocate | kernel/src/memory/kmalloc.c:21-43 | NULL exactly for sizes out of range or when no block fits; otherwise the pool, the pointer and the header are as specified and older pointers stay backed |
| KernelHeap.Kmalloc.Free | kernel/src/memory/kfree.c:12-35 | the header leads back to the order of the allocation; neither abort is reached on a live pointer |
| KernelHeap.Kmalloc.LiveRegionsDisjoint | kernel/src/memory/kmalloc.c:27-42 | header and bytes of two live pointers never overlap |
| KernelHeap.KmallocThenKfree | kernel/src/memory/kfree.c:28-34 | kmalloc then kfree restores every free list when the block taken was clear |
| Frames.FrameAllocator.Get | kernel/src/memory/page.c:13-24 | get_free_page takes one available frame, 0 exactly when there is none |
| Frames.FrameAllocator.Free | kernel/src/memory/page.c:30-43 | free_page gives that frame back, and only a held one can be given |
| SharedBuddy.KernelMemory.Allocate | kernel/src/memory/kmalloc.c:21-43 | kmalloc beside single frames on one buddy allocator: NULL exactly as without them, frames held stay held, both stay sound |
| SharedBuddy.KernelMemory.FreeBlock | kernel/src/memory/kfree.c:12-35 | the same for kfree |
| SharedBuddy.KernelMemory.GetPage | kernel/src/memory/page.c:13-24 | the same for get_free_page: every live kmalloc pointer stays backed |
| SharedBuddy.KernelMemory.FreePage | kernel/src/memory/page.c:30-43 | the same for free_page |
| Paging.AddressSpaces.SetupKvm | kernel/src/sys/process/process.c:216-238 | the new directory maps the kernel's shared and upper slots and itself, nothing else, at the cost of one frame |
| Paging.AddressSpaces.CopyTable | kernel/src/sys/process/process.c:277-297 | one table is copied page by page into fresh frames with the same presence, flags and contents |
| Paging.AddressSpaces.CopyPageDir | kernel/src/sys/process/process.c:265-303 | a deep copy: every user slot shows the same mapping; every present user slot of the child is its own, its table and pages among the frames just taken, none of them the parent's; so a store through either address space changes no mapping or byte the other sees; no table of the child is mapped as a page, nor one of the parent's unless it was before; and it fails exactly when fewer frames are available than tables and pages need; outside the user slots the child has the kernel's entries and its own |
| Paging.SameAtEveryAddress | kernel/src/sys/process/process.c:273-299 | slot by slot means address by address: at every address from 16 MiB up to 3 GiB child and parent map alike, flags and contents |
| Paging.ApartIsIsolated | kernel/src/sys/process/process.c:289-296 | two address spaces without a common user page or table are isolated: no store through a user mapping of one changes a view of the other |
| Paging.OnlyOwnStoresSeen | kernel/src/sys/process/process.c:265-303 | however the stores of two such address spaces interleave, each sees only its own: the outcome for it is that of its stores alone |
| Paging.TreeTablesUnmapped | kernel/src/sys/process/process.c:265-303 | no page table of a copied directory is itself mapped for the user, so user stores change no mapping |
| Paging.AddressSpaces.FreePageDir | kernel/src/memory/vmm.c:101-121 | each frame the directory owns is released exactly once, and nothing shared with the kernel's directory |
| Paging.AddressSpaces.ForkThenReap | kernel/src/sys/process/process.c:194-198 | copy then release: memory and allocator are as before, all of it |
| HeapExtents.TilesOrdered | kernel/src/memory/vfree.c:36-39 | in a tiled heap extents lie in strict address order and apart |
| HeapExtents.AllocateTiles | kernel/src/memory/vmalloc.c:85-113 | handing out the front of an extent keeps the tiling and never leaves two free neighbours; the branch without a split loses nothing |
| HeapExtents.ReleaseTiles | kernel/src/memory/vfree.c:41-57 | the two-sided merge keeps the tiling and the full coalescing |
| HeapExtents.ReleaseUndoesAllocate | kernel/src/memory/vfree.c:33-57 | freeing what was just allocated restores the heap, extent for extent |
| HeapList.AllocateLinked | kernel/src/memory/vmalloc.c:99-113 | with the words vmalloc stores, the nodes in memory link the free extents of the new heap in order |
| HeapList.AllocateRecorded | kernel/src/memory/vmalloc.c:99-127 | and every free node and every header records its extent's size |
| HeapList.ReleaseLinked | kernel/src/memory/vfree.c:36-57 | the same links after a free |
| HeapList.ReleaseRecorded | kernel/src/memory/vfree.c:30-57 | the same sizes after a free |
| VirtualMemory.TotalSizeHoldsExactly | kernel/src/memory/vmalloc.c:69 | the 32-bit size holds the request if and only if the sum does not wrap |
| VirtualMemory.WrappedSizeExactly | kernel/src/memory/vmalloc.c:69 | past the wrap the size is one page, and zero exactly for the 4096 requests in between; a header takes 12 bytes of the first page |
| VirtualMemory.HeapUnmappedExactly | kernel/src/memory/vmm.c:212-245 | the heap's address range is unmapped at the start if and only if the machine has at most 256 MiB |
| VirtualMemory.VirtualHeap.Initialize | kernel/src/memory/vmalloc.c:20-49 | for every machine: one free extent as large as the pool with its first page mapped, or no frame, or, exactly above 256 MiB, a node written over the direct map |
| VirtualMemory.VirtualHeap.Search | kernel/src/memory/vmalloc.c:70-78 | the walk finds the first fit and the free extent before it, through mapped nodes only |
| VirtualMemory.VirtualHeap.Vmalloc | kernel/src/memory/vmalloc.c:63-130 | for every 32-bit request: first fit exactly, NULL exactly when nothing is large enough, the abort exactly when fewer frames are available than pages and tables take, every node and header in a mapped page, distinct pages on distinct frames, the exact number of frames lost to pages already mapped, and the list kept if and only if the wrapped size is not zero |
| VirtualMemory.VirtualHeap.MapFresh | kernel/src/memory/vmm.c:147-199 | a page gets a frame of its own, or keeps its old one and loses the new; a missing table costs one frame more, and it aborts exactly when those are not available |
| VirtualMemory.VirtualHeap.Vfree | kernel/src/memory/vfree.c:10-66 | the block is released and merged, its inner pages are unmapped and their frames returned, each once; freeing it again is caught |
| VirtualMemory.VirtualHeap.UnmapOne | kernel/src/memory/vfree.c:59-65 | a frame is returned only after its page is unmapped |
| SharedHeap.MappingSeenExactly | kernel/src/memory/vmm.c:157-199 | a kernel page mapped while one process runs is seen by another, made earlier, if and only if the kernel's directory had the table when both were made |
| SharedHeap.HeapPageSeenExactly | kernel/src/sys/process/process.c:216-238 | so a heap page is seen by every other process if and only if it is among the first 1024 |
| DirBlock.InsertFields | kernel/src/fs/ext2/entry.c:120-128 | the cut record keeps its entry, and the bytes written read back as the new one, whatever the room |
| DirBlock.SplitAt | kernel/src/fs/ext2/entry.c:96-106 | a walk along the lengths splits the chain of a block in two |
| DirTheorems.InsertWithRoom | kernel/src/fs/ext2/entry.c:120-128 | with room, the chain tiles the block again and exactly one record was added, behind the one that was cut |
| DirTheorems.InsertKeepsWellFormedExactly | kernel/src/fs/ext2/entry.c:96-128 | the block stays well formed if and only if the first record with slack has room for the name |
| DirTheorems.WriteBreaksBlock | kernel/src/fs/ext2/entry.c:96-128 | a block reached by two writes and one delete on which the next write breaks the chain |
| DirTheorems.InsertThenLookup | kernel/src/fs/ext2/entry.c:219-232 | every other name is found as before and a fresh name finds the new entry |
| DirTheorems.RemoveLater | kernel/src/fs/ext2/entry.c:40-59 | deleting a record that is not the first joins it to the one before and leaves all others |
| DirTheorems.RemoveWorksExactly | kernel/src/fs/ext2/entry.c:38-60 | deleting makes the name unfindable in a well-formed block if and only if it is not the block's first record |
| DirTheorems.RemoveFirstExample | kernel/src/fs/ext2/entry.c:38-60 | a block of one record on which the deletion fails |
| DirTheorems.InsertThenRemove | kernel/src/fs/ext2/entry.c:38-128 | writing a fresh name and deleting it restores every record, lengths included |
| Ext2Dir.WriteKeepsDirectoryExactly | kernel/src/fs/ext2/entry.c:88-134 | over all blocks: the directory stays well formed if and only if the first record with slack has room |
| Ext2Dir.WriteTakesFirstSlack | kernel/src/fs/ext2/entry.c:88-128 | which record is cut: the first with slack of the first block that has one; every other block stays; there is no room exactly when no record has slack, and the copy passes the buffer only when the cut record and the new one reach past the block |
| Ext2Dir.WriteThenFind | kernel/src/fs/ext2/entry.c:205-233 | over all blocks: the new name is found, every other as before |
| Ext2Dir.WriteThenRemove | kernel/src/fs/ext2/entry.c:25-61 | over all blocks: creating and deleting a name restores every record |
| Ext2Dir.DeleteWorksExactly | kernel/src/fs/ext2/entry.c:25-61 | over all blocks: deleting leaves a well-formed directory without the name if and only if its record is not the first of a block, and then every other name is found as before |
| Ext2Dir.RemoveInMissing | kernel/src/fs/ext2/entry.c:25-63 | deletion fails exactly for names that lookup does not find |
| Ext2Dir.RemoveTakesFirstMatch | kernel/src/fs/ext2/entry.c:25-59 | which block a deletion changes: that of the first record with the name, and no other |
| Ext2Dir.LookupIsFirst | kernel/src/fs/ext2/entry.c:200-233 | a lookup over all blocks gives the entry of the first record with that name, and nothing exactly when no record has it |
| Ext2Dir.Directory.SearchedExactly | kernel/src/fs/ext2/entry.c:199-203 | the blocks find and delete come to, in order: those of the twelve direct ones that the size counts, up to the first zero pointer |
| Ext2Dir.Directory.TwelveBlocksSearched | kernel/src/fs/ext2/entry.c:200 | in a directory of twelve full blocks, or more, a name that is only in the twelfth is found there, and no thirteenth is looked at |
| Ext2Dir.Directory.FindEntry | kernel/src/fs/ext2/entry.c:186-236 | the nested loops find exactly the first entry of that name among the blocks they reach |
| Ext2Dir.Directory.WriteEntry | kernel/src/fs/ext2/entry.c:67-135 | for any directory: the blocks on disk become those specified, with no room, a write, and a copy past the buffer told apart; the walk leaves the directory's own bytes exactly when the size counts more blocks than it reaches and no record of those has slack, or when no record that the size covers has slack and another starts behind it in the last block |
| Ext2Dir.Directory.WholeStaysInside | kernel/src/fs/ext2/entry.c:82-114 | neither happens in a directory of whole, direct and present blocks |
| Ext2Dir.DirectoryWithHole | kernel/src/fs/ext2/entry.c:86-114 | a directory of which the first happens |
| Ext2Dir.DirectoryCutShort | kernel/src/fs/ext2/entry.c:94-106 | a directory of which the second happens |
| Ext2Dir.Directory.DeleteEntry | kernel/src/fs/ext2/entry.c:11-64 | the blocks on disk become those specified and no other block changes |
| Ext2Dir.SameName | kernel/src/fs/ext2/entry.c:222-223 | strncmp decides equality of names without NUL |
| ExecArgs.ScanUndoesPack | kernel/src/fs/binfmt_elf.c:103-106 | scanning packed strings gives back every one, whatever follows them; the loader's loop is this scan (`ExecArgs.ArgPages.ScanStrings`) |
| ExecArgs.ArgPages.PutByte | kernel/src/fs/exec.c:57-67 | one byte stored, on a zeroed page taken first if need be; it fails exactly when the page is missing and none can be had |
| ExecArgs.ArgPages.CopyStrings | kernel/src/fs/exec.c:37-71 | 0 exactly when the strings leave no byte or a page they touch cannot be had; otherwise they lie packed below p, byte for byte, and nothing above changed |
| ExecArgs.ArgPages.ScanStrings | kernel/src/fs/binfmt_elf.c:98-106 | the loader's loop over the bytes in memory records the addresses of the strings the scan finds, and stays inside its array if and only if there are at most ten |
| ExecArgs.ArgPages.BuildVector | kernel/src/fs/binfmt_elf.c:98-118 | argc, the addresses of the scanned strings and 0, 16-byte aligned, below the strings and never overlapping them; past ten arguments the overrun |
| ExecArgs.AddressLeadsToString | kernel/src/fs/binfmt_elf.c:103-117 | each address in the vector leads to its string, NUL included |
| ExecArgs.VectorInArgumentPagesExactly | kernel/src/fs/binfmt_elf.c:108-113 | the vector lies in pages taken for the strings if and only if something was packed and the lowest string starts far enough into its page |
| ExecArgs.VectorOutsideExample | kernel/src/fs/binfmt_elf.c:108-113 | one argument of 4090 letters, on which it does not |
| ExecArgs.ArgPages.VectorMapped | kernel/src/fs/binfmt_elf.c:112-117 | the vector's stores all go to pages mapped for the strings, or one does not |
| ExecArgs.Execute | kernel/src/fs/exec.c:164-174 | both packings and the scan together: E2BIG exactly when environment and arguments do not fit or their pages cannot be had, the overrun exactly past ten arguments, a vector outside the strings' pages exactly when nothing was packed or the lowest string starts too close to its page's start; otherwise strings and vector are recovered in place |
| GroupSpace.NumberingInverts | kernel/src/fs/ext2/balloc.c:67-68 | the group and bit computed by free are those of the allocation |
| GroupSpace.NumberedBit | kernel/src/fs/ext2/balloc.c:113-122 | every number in range is base + per-group * group + bit for one bit of a group that exists |
| GroupSpace.AllocateKeeps | kernel/src/fs/ext2/balloc.c:19-71 | an allocation fails exactly when the total is zero, never takes the "no bit" exits otherwise, and sets one clear bit of a unit that exists, all counts staying exact |
| GroupSpace.AllocateLowest | kernel/src/fs/ext2/balloc.c:23-68 | the number given out is the lowest free one |
| GroupSpace.ReleaseKeeps | kernel/src/fs/ext2/balloc.c:122-130 | a free is refused exactly when the unit is free; otherwise it clears that bit alone and the counts stay exact |
| GroupSpace.ReleaseUndoesAllocate | kernel/src/fs/ext2/balloc.c:61-130 | freeing what was just allocated restores every bitmap and count |
| GroupSpace.EveryRunConserves | kernel/src/fs/ext2/ialloc.c:21-66 | over every run, units free and units held add up to those free at the start, and allocation fails exactly when all are held |
| Ext2Alloc.FindFreeBit | kernel/src/fs/ext2/ext2.h:215-232 | the first clear bit, -1 exactly when there is none |
| Ext2Alloc.NewBlockStored | kernel/src/fs/ext2/balloc.c:67-96 | zeroing the new block touches no bitmap: the bitmaps' own blocks are in use |
| Ext2Alloc.Ext2.NewBlock | kernel/src/fs/ext2/balloc.c:11-106 | disk, group count and superblock count become those specified, the block is zeroed, the inode side is untouched |
| Ext2Alloc.Ext2.FreeBlock | kernel/src/fs/ext2/balloc.c:108-147 | the same for freeing any unit, EINVAL exactly for a free one; the bitmaps' own blocks stay reserved if and only if the number is not one of theirs |
| Ext2Alloc.Ext2.NewInode | kernel/src/fs/ext2/ialloc.c:21-86 | the same for inodes; a new directory adds one to its group's 16-bit directory count and to no other |
| Ext2Alloc.Ext2.FreeInode | kernel/src/fs/ext2/ialloc.c:154-190 | the same for freeing an inode; a directory takes one away from its group's count |
| Ext2Alloc.DirsComeBack | kernel/src/fs/ext2/ialloc.c:65-175 | creating a directory and freeing it gives every group's directory count back |
| SocketWorld.AcceptKeepsExactly | kernel/src/net/unix.c:215-240 | an accept keeps what is promised of every socket (connected ones point at each other, bytes arrive in order) if and only if it lets nobody in or lets in another socket that was never joined |
| SocketWorld.AcceptByConnectedClient | kernel/src/net/unix.c:215-240 | a run after which a connected client accepts: it ends connected to nobody without a shutdown |
| SocketWorld.ConnectKeepsExactly | kernel/src/net/unix.c:175-213 | a connect keeps it if and only if it is refused or no connected socket is joined to the one that connects |
| SocketWorld.ConnectByConnectedClient | kernel/src/net/unix.c:175-213 | a run after which a connected client connects again: the socket it was joined to stays connected to one that is connecting |
| SocketWorld.SendKeeps | kernel/src/net/unix.c:263-294 | a send appends a front part of the data to the peer's buffer, all of it or as much as fills the buffer to 4096 bytes, refuses exactly when not connected, and keeps the accounts |
| SocketWorld.ReceiveKeeps | kernel/src/net/unix.c:242-261 | a receive gives out the front of the buffer, as much as asked for or all there is, refuses exactly when not connected or nothing waits, and keeps them |
| SocketWorld.ShutdownKeeps | kernel/src/net/unix.c:296-304 | a shutdown keeps them, touches no other socket, and ends sending and receiving on its own |
| SocketWorld.StepKeepsExactly | kernel/src/net/unix.c:175-304 | of every operation: it keeps the promises if and only if the two conditions above hold where they apply |
| SocketWorld.SymmetricUntilShutdown | kernel/src/net/unix.c:215-240 | a connected socket's peer points back unless it shut down |
| SocketWorld.DeliveredInOrder | kernel/src/net/unix.c:242-304 | from the accept that joined two sockets on, also after either shut down: bytes received are a prefix of those the other sent; the rest waits in the buffer, at most 4096 |
| SocketWorld.EveryInterleaving | kernel/src/net/unix.c:175-304 | all of that after every interleaving from no sockets at all in which those conditions hold, for every pair ever joined |
| SocketWorld.OrderlyRunsAreGuarded | kernel/src/net/unix.c:175-240 | they hold in every interleaving in which connect is called on sockets never connected and accept on sockets not connecting or connected |
| UnixSocket.Sockets.ConnectTo | kernel/src/net/unix.c:175-213 | the objects become those specified, error by error, whatever state the socket is in; the promises are kept if and only if it is refused or no connected socket is left behind |
| UnixSocket.Sockets.AcceptOne | kernel/src/net/unix.c:215-240 | one turn of the accept loop on the objects, whatever state they are in; the promises are kept if and only if nobody was let in or it was another socket never joined |
| UnixSocket.Sockets.SendTo | kernel/src/net/unix.c:263-294 | the copy into the peer's buffer: all of the data or as much as fills the 4096 bytes; the objects become those specified |
| UnixSocket.Sockets.ReceiveFrom | kernel/src/net/unix.c:242-261 | the copy out and the move of the rest: as much as asked for or all there is; the objects become those specified |
| UnixSocket.Sockets.ShutDown | kernel/src/net/unix.c:296-304 | the two stores |
| Epoch.LeapDays | kernel/src/arch/x86/time/time.c:18-30 | the sum over the years is the closed form with the three leap-year quotients |
| Epoch.MonthTableIsRight | kernel/src/arch/x86/time/time.c:73-78 | for every year the table's month starts and lengths are those of the closed form of the Gregorian calendar, the table not being named in it |
| Epoch.WeekdayIsRight | userspace/bin/time/time.c:49 | weekdays counted from the Epoch's Thursday are those of Gauss's rule for every valid date |
| Epoch.SecondsIsPosix | kernel/src/arch/x86/time/time.c:23-47 | the calendar's seconds are those of the standard's expression, whose day of the year is the closed form |
| Epoch.DateOfSeconds | kernel/src/arch/x86/time/time.c:49-87 | two valid dates with the same seconds are the same |
| Epoch.ToEpoch | kernel/src/arch/x86/time/time.c:23-47 | the loops compute the calendar's seconds, wrapped to 32 bits |
| Epoch.FromEpoch | kernel/src/arch/x86/time/time.c:49-87 | for every 32-bit time the loops stop inside the tables and leave the specified fields |
| Epoch.FromEpochShowsDate | kernel/src/arch/x86/time/time.c:49-87 | from 1970 on those fields are the calendar's date of that second, years before 2000 stored as 2000 |
| Epoch.EpochComesBackExactly | kernel/src/arch/x86/time/time.c:70 | over all 32-bit times, to_epoch undoes from_epoch if and only if the time is not before 2000 |
| Epoch.DateComesBackExactly | kernel/src/arch/x86/time/time.c:43-70 | over all dates the clock can store, from_epoch undoes to_epoch if and only if the seconds fit 31 bits |
| Epoch.ToEpochIsPosixExactly | kernel/src/arch/x86/time/time.c:43-46 | to_epoch agrees with the standard if and only if the seconds fit 31 bits |
| Epoch.LocalTime | userspace/bin/time/time.c:37-77 | for every 32-bit time: from 1970 on that same date, day of year and weekday, inside its month table; before, the fields C's truncating division gives |
| Epoch.NoDateBefore | userspace/bin/time/time.c:37-77 | which before 1970 are those of no date |
| Epoch.BothClocks | userspace/bin/time/time.c:37-77 | kernel and userspace called on one time show the same clock if and only if it is not before 1970, and the same year if and only if it is not before 2000 |
| Scheduler.FairDispatch | kernel/src/sys/process/process.c:357-391 | a process that is ready and stays so until its own dispatch gets it before any other slot is dispatched twice, with at most 31 other dispatches first |
| Scheduler.TurnComes | kernel/src/sys/process/process.c:357-391 | and its turn comes within 33 turns, staying ready only until then |
| Scheduler.BeforeItsTurn | kernel/src/sys/process/process.c:359-387 | until then only slots ahead of it in the scan are dispatched, each once |
| Scheduler.RunIsRoundRobin | kernel/src/sys/process/process.c:357-391 | turn by turn: the slot dispatched is the first ready one from the place on; the table then is the one its turn left, but for itself being ready where it was left running |
| Scheduler.NeverReadyNeverRuns | kernel/src/sys/process/process.c:359-384 | a slot that is asleep, exited or unused at the start and after every turn is never dispatched |
| Scheduler.AsleepRunsNoMore | kernel/src/sys/process/process.c:382-384 | a slot left asleep, exited or unused by a turn, its own included, and by all later ones is not dispatched again, and stays so |
| Scheduler.ProcessTable.Schedule | kernel/src/sys/process/process.c:349-392 | the loop on the table dispatches exactly the slots of the round robin, history and table included |
| InodeCache.DropUndoesGain | kernel/src/fs/vfs/inode.c:44-87 | inode_put undoes inode_get, the slot included |
| InodeCache.Table.InodeGet | kernel/src/fs/vfs/inode.c:44-65 | one reference more to the inode's one slot; NULL exactly when it has none and no slot is free |
| InodeCache.Table.InodeGetEmpty | kernel/src/fs/vfs/inode.c:11-28 | takes the first free slot, and fails exactly when there is none |
| InodeCache.Table.InodePut | kernel/src/fs/vfs/inode.c:67-87 | one reference less, the slot emptied with the last; the abort exactly for the root node's last |
| PathWalk.SpansAreMaximalRuns | kernel/src/arch/x86/lib/string/split.c:32-65 | the spans of the words are exactly the maximal stretches without the separator, each one a span |
| PathWalk.WordsAreMaximalRuns | kernel/src/arch/x86/lib/string/split.c:32-65 | the words that split returns are exactly the maximal stretches without the separator, in order |
| PathWalk.CountWords | kernel/src/arch/x86/lib/string/split.c:14-30 | the state machine counts them |
| PathWalk.Split | kernel/src/arch/x86/lib/string/split.c:32-65 | the index loops return exactly those words |
| InodeCache.DropFirst | kernel/src/fs/namei.c:157-164 | exchanging the held directory for the one found leaves exactly one reference gained |
| PathWalk.Lookup | kernel/src/fs/namei.c:113-193 | vfs_lookup gains exactly one reference to what the path names, or none; path, tree and cache decide which; it faults exactly where a name is looked up in a file |
| PathWalk.WalkInExactly | kernel/src/fs/namei.c:150-165 | a walk that leads somewhere comes back empty if and only if some place on the way is neither cached nor finds a free slot while the one before is held |
| PathWalk.TwoSlotsSuffice | kernel/src/fs/namei.c:150-165 | with two free slots the cache cuts no lookup short |
| PathWalk.ResolveReachesExactly | kernel/src/fs/namei.c:113-193 | with two free slots a path reaches an inode if and only if its words lead there, name by name through searchable directories, from the root for a leading slash and from the working directory otherwise |
| PathWalk.ResolveFaultsExactly | kernel/src/fs/namei.c:150-165 | and it faults if and only if some of its words lead to what is no directory and more follow |
| PathWalk.OneBaseMatters | kernel/src/fs/namei.c:122-129 | whatever the cache, an absolute path does not depend on the working directory, nor another on the root |
| PathWalk.RootAndWorkingDirectory | kernel/src/fs/namei.c:122-129 | one name in the root and one in the working directory, each found by its own kind of path only |
| PathWalk.FaultExample | kernel/src/fs/namei.c:157-161 | a path through a regular file |
| FileRefs.GainKeeps | kernel/src/fs/vfs/inode.c:50-53 | taking a reference keeps every count equal to its holders |
| FileRefs.DropKeeps | kernel/src/fs/vfs/inode.c:78-86 | giving one up keeps it, and the "root reached count 0" abort is out of reach |
| FileRefs.FileDownKeeps | kernel/src/sys/file/file.c:47-61 | file_put keeps it; the file is freed with its last slot and gives up its inode |
| FileRefs.CountsFit | kernel/src/fs/vfs.h:57 | no 16-bit count overflows: holders are bounded by the tables |
| Syscalls.FileLivesExactly | kernel/src/sys/file/file.c:47-61 | an open file lives if and only if some descriptor of some process leads to it |
| Syscalls.Vfs.constructor | kernel/src/sys/process/process.c:73-78 | the first process is alive in slot 0 with the root as root and working directory; the superblock and it hold the root's count of 3, and nothing else is held |
| Syscalls.Vfs.OpenPath | kernel/src/fs/fs_interface.c:139-177 | open puts a new file of count 1 into the first free descriptor, or fails with the error of the first thing amiss and leaves everything as it was; which of them is exact for every tree, path and cache |
| Syscalls.Vfs.Close | kernel/src/fs/fs_interface.c:179-194 | close empties the descriptor and gives up one reference exactly for open descriptors; EBADF for all others but 64, which passes the guard and lies past the table |
| Syscalls.Vfs.Chdir | kernel/src/fs/fs_interface.c:236-257 | the working directory becomes what the path names, counts exact, or the error says what was amiss and nothing changes; exact for every tree, path and cache |
| Syscalls.Vfs.Fchdir | kernel/src/fs/fs_interface.c:514-534 | the same from an open file, though the old reference is dropped first; the code is exact for every descriptor |
| Syscalls.Vfs.Fork | kernel/src/sys/process/process.c:49-94 | the first unused slot holds exactly what the parent's does, every shared count raised, open files and live cache slots otherwise as they were; no child exactly when memory or slots are short |
| Syscalls.Vfs.Exit | kernel/src/sys/process/process.c:147-169 | the zombie holds nothing, every count lowered, what others still hold as it was |
| Syscalls.Vfs.Reap | kernel/src/sys/process/process.c:200-202 | a reaped slot is free and holds nothing |

## Left out

- Port I/O, disks, interrupt controllers, clocks, descriptor tables and assembly: blocks and frames are arrays, a context switch is a step boundary, bit instructions have their meaning.
- Signals, timers, and wake-ups of a waiting parent under preemption.
- `ext2_file_write`, the group descriptor table on disk, and I/O-error branches that leave counts half updated.
- The branches of fork that run out of memory half way and leak what they took.
- Mounts, `sys_stat`, `sys_getcwd`, the branch of open whose driver refuses, and socket inodes given to `inode_put`.
- ELF segment loading, the module loader, formatted printing, the shell, the console and the userspace allocator.
- Buddy.BuddyAllocator.Init: the null check after the map is allocated never fires and is not modelled; a virtual end of 2^32, held as 0, is a number here.
- Buddy.BuddyAllocator.RemoveFromFreeList: an empty list is treated as "not found" and reported; what the read of address 0 would give is not modelled.
- KernelHeap.CeilLog2IsLeast: `ceil_log2(1)` counts the leading zeros of 0, which the compiler leaves undefined; it is read as 0.
- Paging.AddressSpaces.CopyPageDir: hardware accessed and dirty bits are not modelled.
- VirtualMemory.VirtualHeap.Initialize: what the direct map's overwritten page held is not modelled.
- VirtualMemory.VirtualHeap.Vmalloc: running out of frames is the kernel's abort, after which nothing is stated of the heap; nor is anything stated of later calls once a size of zero has spoilt the list. The heap's mappings are those of one directory; what other processes see of them is the subject of `SharedHeap.HeapPageSeenExactly`.
- Ext2Dir.Directory.WriteEntry: what the code does to block 0, to an indirect block or behind the size once its walk has gone there (outcomes `Stray` and `Beyond`) is not modelled.
- Ext2Dir.Directory.FindEntry: the comparison of first characters before strncmp is implied by it and is not a step of its own.
- ExecArgs.ArgPages.BuildVector: what an overrun of the loader's local array writes over is not modelled; the vector's words are returned, their pages are the subject of `ExecArgs.VectorInArgumentPagesExactly`.
- ExecArgs.Execute: what an earlier image of the process left mapped below the strings is not modelled.
- Ext2Alloc.Ext2.NewBlock: group counts are unbounded numbers; they fit 16 bits while a group has fewer than 65536 units.
- Ext2Alloc.Ext2.NewInode: loading the inode into the cache and filling its fields are not modelled.
- UnixSocket.Sockets.ConnectTo: binding paths and the lookup are a parameter, as is memory for the accepted socket's data.
- PathWalk.Split: memory for the words is assumed.
- Syscalls.Vfs.OpenPath: only paths that exist are opened; creation and truncation are left out, and the permission check is a parameter.
- Syscalls.Vfs.Close: what the code reads past the table for descriptor 64 is not modelled; drivers' release functions are left out.
- Paging.AddressSpaces.ForkThenReap: the child's tables are taken as unchanged between copy and release.
