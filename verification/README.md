# Verification of the ZZZ-OS kernel core

This project models the parts of ZZZ-OS whose correctness rests on global invariants over mutable state, and
proves those invariants and what follows from them. `dafny verify dfyconfig.toml` checks everything.

The models keep the form of the C code: structures that are updated in place are classes with methods and loops,
pure arithmetic is functions. Where several CPUs, threads or a device take part, a `...Runs` module states each
critical section as a step of a transition system and proves what holds in every interleaving. The methods for the
critical sections are proved to take exactly such steps.

- **Page allocator** (`BlockGeometry`, `Buddy`, `AllocatorRuns`, `PageAllocator`): the free lists are at all times
  the maximal aligned blocks of the free pages, so they depend on nothing but which pages are free; free, cached
  and live pages partition the managed pages in every interleaving.
- **Page tables** (`PageTable`, `PageTableForm`, `PageTableWalk`, `PageTableRuns`): map, unmap and remap change the
  translation of nothing but their range, through any mix of huge and small pages; split and merge change nothing; no
  reachable table is empty or could be one leaf, so the tables depend on nothing but the translation.
- **printk ring and consoles** (`LogRecord`, `LogLayout`, `LogRing`, `LogOversized`, `ConsoleRuns`,
  `ConsoleHandoff`, `Console`): the byte ring refines a suffix of an unbounded log, a store drops as few records as
  leave room for it, cursors miss only dropped records, and no console request is lost.
- **Slab allocator** (`SlabRuns`, `Slab`, `SlabCache`, `Kmalloc`): each object is on one free list, in one
  magazine or in use; no check panics on an object in use; draining an unused cache returns every page.
- **ext2** (`Ext2Bitmap`, `Ext2Tree`, `Ext2Blocks`, `Ext2Release`, `Ext2Volume`, `DirPage`, `DirBlocks`, `DirEntries`,
  `DirScan`, `Directory`, `DirRuns`, `PageIo`, `ReadPages`): the block trees of all inodes are disjoint and counted,
  a file block is found through exactly the words its number names, mapping one changes no other, the indirect-block
  cache agrees with the disk, directories refine lists of entries and a map from names to inodes, and batched
  transfers equal block-by-block ones.
- **virtqueue** (`VirtqueueRuns`, `Virtqueue`): the split virtqueue protocol of section 2.6 of VIRTIO 1.1 between
  this driver and a conforming device; no token comes back twice, and all have come back when nothing is in flight.
- **Address spaces** (`Vma`, `AddressSpace`, `Mmap`): the VMA list is the canonical form of a map from addresses to
  flags, and first fit finds the least address there is.
- **Block I/O and numbers** (`BlockIo`, `Division`, `Words`, `NumberFormat`): unaligned I/O refines a byte array, the
  shift-subtract division divides, and the text of a printed number is determined by value, width, precision and
  flags and reads back.

`Arithmetic`, `Bytes`, `Options` and `UniqueLists` are shared helpers.

Some properties one would expect do not hold of the code. The model keeps the code as it is and states exactly
when they hold:

- A table of leaves may merge into a huge leaf whose physical address is not a multiple of its size
  (`PageTableWalk.MergedLeafAligned`, `PageTableRuns.MergedLeafUnaligned`).
- remap looks up the first address only. A range that is mapped to scattered addresses is mapped to consecutive ones
  (`PageTableWalk.PgTable.Remap`, `PageTableRuns.ScatteredPages`).
- map may be stopped by a leaf it has made itself. How far it gets is a function of the translation before the call
  (`PageTableWalk.PgTable.Map`, `PageTableRuns.StoppedByMerge`).
- The length of a log record is kept in 16 bits. The buffer stays a ring if and only if what is stored is smaller
  (`LogRing.Ring.Store`); the text of a larger record survives the next store if and only if it ends before the
  length field does (`LogOversized.TextSurvives`, `LogOversized.LongRecordLost`). A store that does not fit at all has
  dropped every record before it gives up.
- Deleting the first entry of a block that is not the first of its page makes the entry before it straddle the block
  boundary (`Directory.Dir.Delete`, `DirRuns.DeleteStraddles`).
- The search for room in a directory page ends at the first unused entry, even if there is room behind it
  (`DirEntries.InsertNone`, `DirRuns.RoomGivenUp`).
- A hole of a page that is dirty as a whole is dropped by a successful write (`PageIo.DirtyReachesDisk`,
  `PageIo.HoleDropped`).
- Releasing a free block makes the free counters wrong (`Ext2Bitmap.Bitmap.Release`, `Ext2Bitmap.ReleasedTwice`).
- alloc_pages_kva rounds the number of pages up in 32 bits. Its block holds the pages if and only if there are at most
  2^31 (`Words.BlockHolds`, `Kmalloc.OnePageForTooMany`).
- The checks of a partition's end are made in 64 bits. A transfer that passes stays in the partition if and only if its
  own end does not wrap around (`BlockIo.InPartition`, `BlockIo.PartitionEscaped`), and a request has at most 65535
  vectors, which ends the transfers near 256 MiB (`BlockIo.SmallTransfer`, `BlockIo.LargeTransfer`).
- sys_mmap passes its address through an int (`Mmap.ReturnedAddress`). do_mmap ignores the result of the insertion,
  which is harmless because the chosen range is free (`Mmap.MapAnonymous`).
- A search for a free range that starts in the first page fails whatever is free above it (`Mmap.FindFreeFrom`);
  find_free_range starts none there (`Mmap.FindFree`).
- The leading zero of an alternative octal conversion of a nonzero value turns the zero flag off
  (`NumberFormat.ZeroFlagKept`, `NumberFormat.OctalEightAlternative`).
- kmem_cache_free sees the magic of the page and the magazine of its own CPU only. The condition for an unnoticed
  wrong free is exact (`SlabCache.KmemCache.Free`), and a double free on two CPUs is one
  (`SlabCache.FreedTwice`).

## Model

| member | source | states |
|---|---|---|
| `BlockGeometry.Nesting` | mm/buddy.c:79-105 | two naturally aligned blocks are nested or apart, never partly overlapping; this is what makes buddy arithmetic sound |
| `BlockGeometry.Halves` | mm/buddy.c:79-105 | a block and its buddy are exactly the two halves of their parent |
| `BlockGeometry.RunInOneBlock` | mm/buddy.c:118-168 | without buddy pairs, a wholly free aligned run lies inside a single free block |
| `BlockGeometry.CanonicalForm` | mm/buddy.c:118-210 | the free blocks are exactly the maximal aligned blocks of the free page set |
| `BlockGeometry.EqualPagesEqualBlocks` | mm/buddy.c:118-210 | equal free page sets have equal free blocks |
| `BlockGeometry.MergeStep` | mm/buddy.c:171-210 | a block and its free buddy become their parent: the pages together are the same, and the remaining blocks stay apart from it without buddy pairs |
| `BlockGeometry.SplitTiling` | mm/buddy.c:144-162 | splitting a block keeps pages, alignment and disjointness, and once the low half is taken no buddy pair remains |
| `Buddy.FreeArea.constructor` | mm/buddy.c:425-440 | empty lists over a page array |
| `Buddy.FreeArea.BuddyInit` | mm/buddy.c:425-453 | after boot the free blocks cover exactly the unreserved pages of the regions, in canonical form and without reserved or per-CPU mark, and managed_pages counts them |
| `Buddy.FreeArea.ListRegion` | mm/buddy.c:433-449 | exactly the unreserved pages of the region become free, and are counted |
| `Buddy.FreeArea.ListRegions` | mm/buddy.c:433-449 | so for all regions |
| `Buddy.FreeArea.AddBootPage` | mm/buddy.c:442-447 | one page that was not free becomes free, behind all listed ones |
| `Buddy.FreeArea.MergeAll` | mm/buddy.c:451-453 | the merge passes turn single pages into the canonical blocks of the same pages |
| `Buddy.FreeArea.TryMergeOrder` | mm/buddy.c:79-105 | one pass over a sorted list leaves no buddy pair of that order and keeps the free pages |
| `Buddy.FreeArea.MergeAt` | mm/buddy.c:90-103 | two neighbours of the list that are buddies become one block of the next list; the free pages stay |
| `Buddy.FreeArea.AddToFreeArea` | mm/buddy.c:52-58 | list, counter and page flag gain the block together |
| `Buddy.FreeArea.RemoveFromFreeArea` | mm/buddy.c:59-64 | list, counter and page flag lose the block together |
| `Buddy.FreeArea.AllocLocked` | mm/buddy.c:118-168 | fails exactly if the order is too large or no aligned run of 2^order pages is free; otherwise removes exactly the pages of one aligned block |
| `Buddy.FreeArea.SplitFirst` | mm/buddy.c:144-162 | one round of splitting keeps the free pages; the only buddy pair is the one just made |
| `Buddy.FreeArea.TakeFirst` | mm/buddy.c:164-167 | the first block of the list leaves, and no buddy pair remains |
| `Buddy.FreeArea.FreeLocked` | mm/buddy.c:171-210 | adds exactly the pages of the block and coalesces back to the canonical form; a page that may not be freed changes nothing |
| `AllocatorRuns.NextKeepsInv` | mm/buddy.c:213-408 | every critical section of the buddy and of the per-CPU lists keeps free blocks, lists and live blocks a partition of the managed pages |
| `AllocatorRuns.RunKeepsInv` | mm/buddy.c:213-408 | so in every interleaving of any number of CPUs |
| `AllocatorRuns.FreeListsCanonical` | mm/buddy.c:118-210 | in every reachable state the free blocks are the maximal blocks of what is neither live nor on a CPU list |
| `AllocatorRuns.IdleStatesAgree` | mm/buddy.c:171-270 | two moments of a run with nothing live and empty CPU lists have the same free lists: freeing and draining everything restores them, in whatever order |
| `AllocatorRuns.PagesConserved` | mm/buddy.c:469-502 | free pages, pages on CPU lists and live pages always add up to the managed pages, and no list at rest exceeds its limit |
| `PageAllocator.PageAllocator.constructor` | mm/buddy.c:455-465 | an initialised buddy behind empty CPU lists with the boot limits |
| `PageAllocator.PageAllocator.BuddyAlloc` | mm/buddy.c:297-307 | the locked allocation is one step of the transition system |
| `PageAllocator.PageAllocator.BuddyFree` | mm/buddy.c:309-315 | the locked free is one step of the transition system |
| `PageAllocator.PageAllocator.PcpPop` | mm/buddy.c:272-285 | takes the first page of the list, or nothing if it is empty |
| `PageAllocator.PageAllocator.PcpPush` | mm/buddy.c:287-295 | puts a live page in front of the list |
| `PageAllocator.PageAllocator.PcpRefill` | mm/buddy.c:213-239 | moves a batch of single pages from the buddy to the empty list, fewer only when no page is left |
| `PageAllocator.PageAllocator.RefillOne` | mm/buddy.c:213-239 | one round moves one free page; it stops only when no page is free |
| `PageAllocator.PageAllocator.PcpDrain` | mm/buddy.c:242-270 | returns exactly min(n, count) pages from the front of the list to the buddy |
| `PageAllocator.PageAllocator.DrainOne` | mm/buddy.c:242-270 | one round returns the first page of the list to the buddy |
| `PageAllocator.PageAllocator.DrainOver` | mm/buddy.c:351-376 | the drain after a push over the limit is one step of the transition system |
| `PageAllocator.PageAllocator.AllocPages` | mm/buddy.c:317-349 | one more block is live, marked for no slab: an aligned run of free pages, or the first page of this CPU's list, which is refilled by a batch of free pages if it is empty; fails exactly if there is none |
| `PageAllocator.PageAllocator.AllocOne` | mm/buddy.c:332-341 | the first page of the list, after a refill if that is empty; fails exactly if no page is free |
| `PageAllocator.PageAllocator.Prepare` | mm/buddy.c:107-115 | a live page loses the mark of an earlier slab, and nothing else changes |
| `PageAllocator.PageAllocator.MarkSlab` | mm/slab.c:300-301 | the page of a new slab is marked, and nothing else changes |
| `PageAllocator.PageAllocator.FreePages` | mm/buddy.c:351-376 | exactly the block stops being live: a larger one becomes free pages, a single page goes to the front of this CPU's list, and a batch of that list becomes free pages if it is over its limit |
| `PageAllocator.PageAllocator.ConfigureCpu` | mm/buddy.c:394-408 | under one CPU lock: its list is emptied into the buddy and its limits are set |
| `PageAllocator.PageAllocator.PcpConfigure` | mm/buddy.c:394-408 | refuses bad limits; otherwise empties all lists back into the buddy |
| `PageAllocator.PageAllocator.MemoryStats` | mm/buddy.c:469-502 | in every state the sum of nr_free << order is the number of free pages, and used is the number of live pages |
| `PageAllocator.FreeCount` | mm/buddy.c:485-486 | the shifted counters of the lists count the free pages exactly |
| `PageTable.PutTranslates` | mm/pgtbl.c:255-308 | writing one entry of a reachable table changes the translation on that entry's range only |
| `PageTable.PutKeepsTree` | mm/pgtbl.c:255-308 | and keeps the tables a tree |
| `PageTable.GrowTranslates` | mm/pgtbl.c:108-139 | hanging a new table under an entry changes the translation on that entry's range only |
| `PageTable.OnlyParent` | mm/pgtbl.c:432-462 | a table is reached through one entry only |
| `PageTableWalk.PgTable.constructor` | mm/pgtbl.c:167-189 | an empty root table translates nothing; from here on no table below the root is empty or could be one leaf |
| `PageTableWalk.PgTable.LookupAt` | mm/pgtbl.c:355-375 | the walk computes the translation |
| `PageTableWalk.PgTable.Split` | mm/pgtbl.c:108-139 | splitting a huge leaf changes no translation |
| `PageTableWalk.PgTable.NeedMerge` | mm/pgtbl.c:59-96 | true exactly if the table is not the root and is a run of equal-permission leaves with consecutive addresses |
| `PageTableWalk.PgTable.TableIsEmpty` | mm/pgtbl.c:39-46 | true exactly if no entry is valid |
| `PageTableWalk.PgTable.Merge` | mm/pgtbl.c:144-165 | merging such a table into one leaf changes no translation; now only its parent may need a merge |
| `PageTableWalk.PgTable.MergeUp` | mm/pgtbl.c:329-339 | merging upwards changes no translation, and no table of the tree but the root could be one leaf afterwards |
| `PageTableWalk.PgTable.FreeTable` | mm/pgtbl.c:35-37 | freeing a table outside the tree changes no translation |
| `PageTableWalk.PgTable.MapPage` | mm/pgtbl.c:255-308 | maps exactly the block of the target level, whatever stood there; refused exactly if the address lies in a larger block that translates as one leaf would, and no table stays behind then |
| `PageTableWalk.PgTable.AddTable` | mm/pgtbl.c:255-308 | a new empty table below an invalid entry changes no translation |
| `PageTableWalk.PgTable.SetLeaf` | mm/pgtbl.c:323-342 | writing the leaf and merging maps exactly its block |
| `PageTableWalk.PgTable.RemapPage` | mm/pgtbl.c:310-349 | on a mapped address, maps exactly the block of the target level; what was split and is uniform again is merged |
| `PageTableWalk.PgTable.UnmapPage` | mm/pgtbl.c:383-430 | unmaps exactly the block of the target level, splitting larger leaves and freeing empty tables; no table is left that could be one leaf |
| `PageTableWalk.PgTable.CleanUp` | mm/pgtbl.c:398-410 | frees empty tables upwards: no reachable table other than the root is empty afterwards, and no translation changes |
| `PageTableWalk.PgTable.RemoveEmpty` | mm/pgtbl.c:403-406 | an empty table leaves its parent and is freed; no translation changes |
| `PageTableWalk.PgTable.DescendSplit` | mm/pgtbl.c:414-429 | one level down, splitting a leaf first; no translation changes, and only the table it ends in may need a merge |
| `PageTableWalk.PgTable.HighestPossibleLevel` | mm/mm.c:28-49 | likewise, as the loop computes it |
| `PageTableWalk.LevelForIs` | mm/mm.c:28-49 | without huge pages the last level; else the first whose page size divides both addresses and is not larger than the rest, the last if there is none |
| `PageTableWalk.PgTable.Map` | mm/mm.c:51-78 | changes the translation on exactly the mapped prefix to pa + offset with prot; how long that is, and so whether it succeeds, is computed from the translation before the call alone |
| `PageTableWalk.FirstFit` | mm/mm.c:28-49 | no earlier level fits, and the level fits unless it is the last |
| `PageTableWalk.BlockedMeans` | mm/mm.c:64-73 | the next page is refused exactly if the old translation, with the prefix mapped so far on top, has a larger linear block around it |
| `PageTableWalk.FreeRangeReached` | mm/mm.c:51-78 | a range in which nothing is mapped is mapped to its end |
| `PageTableWalk.PgTable.Unmap` | mm/mm.c:106-126 | removes exactly the range for any mix of huge and small leaves |
| `PageTableWalk.PgTable.Remap` | mm/mm.c:80-104 | succeeds exactly if the first address is mapped to a nonzero address; a mapped range is then mapped to consecutive addresses from there, so only its permissions change if and only if its addresses were consecutive |
| `PageTableWalk.OnePageConsecutive` | mm/mm.c:80-104 | part of one page, as mprotect remaps it, always meets that condition |
| `PageTableWalk.SplitSame` | mm/pgtbl.c:108-139 | the new table of a split translates as the leaf did |
| `PageTableWalk.MergeSame` | mm/pgtbl.c:144-165 | the merged leaf translates as the table did |
| `PageTableWalk.ClearSame` | mm/pgtbl.c:403-404 | clearing the entry of an empty table changes no translation |
| `PageTableWalk.MergedLeafAligned` | mm/pgtbl.c:59-96 | a merged leaf keeps va and pa congruent modulo its size if and only if the first address of the table is a multiple of that size, which the code does not check |
| `PageTableRuns.MergedLeafUnaligned` | mm/pgtbl.c:59-96 | two pages mapped in a new table that end in one leaf of 8192 bytes at address 4096 |
| `PageTableRuns.ScatteredPages` | mm/mm.c:80-104 | two pages mapped to scattered addresses: the remap of both succeeds and moves the second |
| `PageTableRuns.StoppedByMerge` | mm/mm.c:51-78 | a map over a page that is mapped to the same address already stops half way: the first page merges with it, and the leaf is in the way |
| `PageTableForm.LinearIsUniform` | mm/pgtbl.c:59-96 | a table that translates its range to consecutive addresses with one protection is a run of leaves: nothing below it has escaped a merge |
| `PageTableForm.SomethingMapped` | mm/pgtbl.c:398-410 | a table that is not empty translates some address: no empty table below it has escaped the clean-up |
| `PageTableForm.CoveredIsOneLeaf` | mm/pgtbl.c:432-462 | a leaf above the target level covers an address if and only if one of the larger blocks around it translates linearly |
| `PageTableForm.OneForm` | mm/pgtbl.c:255-430 | two trees without empty and uniform tables translate alike if and only if they have the same entries level by level, up to the pages of the tables |
| `PageTableRuns.SameMapSameForm` | mm/pgtbl.c:255-430 | so for any two page tables, whatever calls made them: the tables depend on the translation only |
| `PageTableRuns.MapThenUnmap` | mm/mm.c:51-126 | mapping a free range and unmapping it restores the tables, down to every entry; none is leaked |
| `LogRecord.ReadBack` | kernel/printk.c:238-302 | the fields read from a stored record are the ones stored |
| `LogRecord.UsedSize` | kernel/printk.c:195-215 | the least aligned size that holds header, text and dictionary |
| `LogLayout.PointerReads` | kernel/printk.c:119-157 | following log_next from the first record visits every retained record as stored, across the wrap marker |
| `LogLayout.PointerEnd` | kernel/printk.c:134-157 | and ends at log_next_idx |
| `LogLayout.DropFirst` | kernel/printk.c:176-192 | dropping the first record leaves a ring of the rest |
| `LogLayout.StoreAhead` | kernel/printk.c:285-302 | a record stored behind the others overwrites none of them |
| `LogLayout.StoreWrapped` | kernel/printk.c:270-302 | nor does one stored at the start with its wrap marker, and the pointers of the others stay |
| `LogLayout.SpaceMeans` | kernel/printk.c:160-173 | the space check means that record and marker fit without touching a retained record |
| `LogLayout.AheadKeeps` | kernel/printk.c:285-302 | a store of any size ahead of the retained records leaves them where they are |
| `LogLayout.WrappedKeeps` | kernel/printk.c:270-302 | so does one at the start of the buffer |
| `LogLayout.NoLayout` | kernel/printk.c:238-302 | a record of 2^16 bytes or more has no place in any ring |
| `LogRing.Ring.constructor` | kernel/printk.c:63-89 | an empty ring |
| `LogRing.Ring.MakeFreeSpace` | kernel/printk.c:176-192 | the oldest records go until there is room, and no more: with any more of them kept there was none; fails exactly if there is none with all gone; no cursor of a reader is invalidated |
| `LogRing.Ring.DropOne` | kernel/printk.c:176-192 | one record is dropped, and every cursor still leads to its record or is behind |
| `LogRing.Ring.Append` | kernel/printk.c:263-299 | with space, exactly the record is appended and none is dropped; a ring again if and only if its size is below 2^16 |
| `LogRing.Ring.WriteRecord` | kernel/printk.c:263-299 | the bytes written, at the next index or at the start behind a marker, and the advance by the 16-bit length field |
| `LogRing.Ring.Store` | kernel/printk.c:238-302 | the record is appended if some suffix of the retained ones leaves room for it, and the longest such suffix is kept; otherwise its truncated form if that has room in the empty buffer, and nothing if not; one that with its header takes at most half the buffer is never truncated; cursors stay right; the buffer stays a ring if and only if the size of what is stored is below 2^16, and otherwise all older records are in place and the next index lies inside the new one |
| `LogRing.Truncated` | kernel/printk.c:218-236 | the text up to a quarter of the buffer and the mark, no dictionary, the rest as it was |
| `LogRing.Ring.CursorInit` | kernel/printk.c:308-315 | a new cursor stands at the first retained record |
| `LogRing.Ring.ReadRecord` | kernel/printk.c:319-357 | returns the record of the next retained sequence number, exactly as stored, or nothing exactly if the cursor has caught up |
| `LogRing.ReadAtPointer` | kernel/printk.c:119-131 | a pointer leads to its record |
| `LogRing.EmptyHasHalf` | kernel/printk.c:160-173 | an empty ring refuses only records that with their header take more than half of it |
| `LogOversized.LengthFieldFaithful` | kernel/printk.c:238-302 | the 16-bit length field holds the record size if and only if it is below 2^16 |
| `LogOversized.NextInside` | kernel/printk.c:298-299 | behind a larger record the next header lies wholly inside it |
| `LogOversized.ReadOnce` | kernel/printk.c:119-157 | until the next store a larger record reads back, unless its field is 0, which reads as the wrap marker |
| `LogOversized.TextSurvives` | kernel/printk.c:238-302 | a larger record reads back after every possible next store if and only if header and text end before its length field does |
| `LogOversized.StoreTwice` | kernel/printk.c:238-302 | in a new ring of the kernel's size a store behind a larger record is written over it |
| `LogOversized.LongRecordLost` | kernel/printk.c:451-461 | a record with 16 bytes of text and a dictionary of 65520: the next one, without text and with timestamp 0, is written over its text |
| `Console.DrainOne` | kernel/console.c:103-117 | a console prints every retained record it has not read whose level is below the log level, and no other, in order |
| `Console.ShownPrints` | kernel/console.c:103-117 | the records printed are exactly those below the console log level, each once and in order |
| `Console.Drain` | kernel/console.c:103-117 | so for every console |
| `ConsoleRuns.NextInv` | kernel/console.c:103-148 | every step of any thread, a store or a section of console_kick and console_drain, keeps the hand-off invariant |
| `ConsoleRuns.InitInv` | kernel/console.c:28-30 | it holds at the start |
| `ConsoleRuns.RunInv` | kernel/console.c:103-148 | so in every interleaving |
| `ConsoleRuns.OneDrains` | kernel/console.c:119-148 | at most one thread drains at a time |
| `ConsoleRuns.ConsolesMissOnlyDropped` | kernel/console.c:103-117 | a console reads increasing sequence numbers and misses only dropped records |
| `ConsoleRuns.KickCovers` | kernel/console.c:119-131 | a kick leaves every record stored so far read, dropped, or vouched for by the pending request or the thread that drains |
| `ConsoleRuns.StillCovers` | kernel/console.c:103-148 | every further step keeps it so |
| `ConsoleRuns.RunCovers` | kernel/console.c:103-148 | so to the end of every interleaving |
| `ConsoleRuns.NoRequestLost` | kernel/console.c:119-148 | whenever nobody owns the console, every record that was stored before any earlier console_kick of the run has been read by every console or dropped |
| `ConsoleRuns.QuietMeansPrinted` | kernel/console.c:119-148 | with all threads idle, every record has been read or dropped |
| `ConsoleHandoff.Handoff.constructor` | kernel/console.c:18-33 | an empty log, consoles at its start and no thread inside is an initial state |
| `ConsoleHandoff.Handoff.StoreSection` | kernel/printk.c:414-467 | the locked store of the ring is one step |
| `ConsoleHandoff.Handoff.KickSection` | kernel/console.c:119-133 | leaving a request or becoming the owner is one step |
| `ConsoleHandoff.Handoff.ReadSection` | kernel/console.c:109-115 | one call of printk_read_record is one step, and gives the oldest retained record the console has not read, or nothing |
| `ConsoleHandoff.Handoff.LastSection` | kernel/console.c:108-117 | the end of the console list is one step |
| `ConsoleHandoff.Handoff.CheckSection` | kernel/console.c:138-145 | another pass, or giving the console up, is one step |
| `ConsoleHandoff.Handoff.DrainOne` | kernel/console.c:109-115 | the inner loop leaves the console at the end of the log |
| `ConsoleHandoff.Handoff.DrainAll` | kernel/console.c:103-117 | a pass of one thread running alone leaves every console there |
| `ConsoleHandoff.Handoff.ConsoleKick` | kernel/console.c:119-148 | a kick of one thread running alone: left to the owner if there is one, otherwise every console has read everything and the console is free |
| `VirtqueueRuns.NextInv` | drivers/virtio/virtio_queue.c:88-192 | driver and device steps keep free list and chains a partition of the descriptors |
| `VirtqueueRuns.RunInv` | drivers/virtio/virtio_queue.c:88-192 | so in every run of driver and device |
| `VirtqueueRuns.ReturnedOnce` | drivers/virtio/virtio_queue.c:145-192 | each request is returned at most once, and has been exactly if it is not in flight |
| `VirtqueueRuns.DrainedReturnsAll` | drivers/virtio/virtio_queue.c:145-192 | with nothing in flight every token has been returned and every descriptor is free |
| `VirtqueueRuns.ChainUnchanged` | drivers/virtio/virtio_queue.c:88-132 | a request that has not been returned is still in flight, with the chain it was added with |
| `Virtqueue.Queue.constructor` | drivers/virtio/virtio_queue.c:63-71 | all descriptors on the free list |
| `Virtqueue.Queue.Add` | drivers/virtio/virtio_queue.c:88-132 | refused exactly without buffers or room; otherwise one step of the protocol with the buffers in the chain |
| `Virtqueue.Queue.AddChain` | drivers/virtio/virtio_queue.c:104-128 | with room, the chain is linked, its token kept and its head published |
| `Virtqueue.Queue.TakeChain` | drivers/virtio/virtio_queue.c:104-121 | the first free descriptors become a chain with the buffers; the rest stay linked |
| `Virtqueue.Queue.DeviceTake` | drivers/virtio/virtio_queue.c:121-131 | the device finds the oldest published chain, linked as added |
| `Virtqueue.Queue.DeviceComplete` | drivers/virtio/virtio_queue.c:153-161 | the device reports a chain used |
| `Virtqueue.Queue.GetBuf` | drivers/virtio/virtio_queue.c:145-192 | returns the token of the oldest used chain and frees the whole chain; nothing exactly if no chain is used |
| `Virtqueue.Queue.ReturnChain` | drivers/virtio/virtio_queue.c:173-186 | the whole chain is pushed on the free list, last descriptor first |
| `Virtqueue.RoomInRing` | drivers/virtio/virtio_queue.c:125 | with a free descriptor the available ring has a free slot: no unconsumed slot is overwritten |
| `Virtqueue.RoomInUsed` | drivers/virtio/virtio_queue.c:160-161 | the used ring never overflows |
| `Virtqueue.RingEmpty` | drivers/virtio/virtio_queue.c:153 | the wrapped 16-bit indices are equal exactly if the queue is empty |
| `Virtqueue.Publish` | drivers/virtio/virtio_queue.c:125-128 | an entry written at the wrapped producer index queues it behind the others |
| `Virtqueue.Consume` | drivers/virtio/virtio_queue.c:160-161 | the entry at the wrapped consumer index is the oldest one |
| `Virtqueue.WrapIndex` | drivers/virtio/virtio_queue.c:125-127 | a wrapped index modulo the queue size is the unbounded counter modulo the queue size |
| `Vma.Canonical` | mm/vma.c:66-143 | sorted lists without mergeable neighbours that describe the same map are equal |
| `Vma.SplitKeeps` | mm/vma.c:42-64 | a split changes no address |
| `Vma.MergeKeeps` | mm/vma.c:66-79 | a merge changes no address |
| `Vma.RemoveKeeps` | mm/vma.c:249-257 | removing the intervals between two cuts unmaps exactly the range |
| `Vma.RemoveMerged` | mm/vma.c:205-259 | unmapping leaves no new mergeable neighbours |
| `Vma.ReflagKeeps` | mm/vma.c:310-318 | new flags on the intervals between two cuts override exactly the range |
| `AddressSpace.MmStruct.constructor` | mm/mm.c:136-152 | an empty list |
| `AddressSpace.MmStruct.Find` | mm/vma.c:32-40 | finds the interval of an address exactly if it has flags |
| `AddressSpace.MmStruct.RangeIsMapped` | mm/vma.c:145-169 | true exactly if the range is not empty and every address is mapped |
| `AddressSpace.MmStruct.Insert` | mm/vma.c:81-121 | refused exactly if some address of the range is mapped; otherwise the union, with no new mergeable neighbours |
| `AddressSpace.MmStruct.MergeNeighbours` | mm/vma.c:107-120 | merging with both neighbours leaves none mergeable |
| `AddressSpace.MmStruct.Add` | mm/vma.c:182-203 | the insertion with its argument checks |
| `AddressSpace.MmStruct.CutStart` | mm/vma.c:221-235 | after the cut no interval straddles the start, and no address changes |
| `AddressSpace.MmStruct.CutEnd` | mm/vma.c:237-247 | likewise for the end, keeping the first cut |
| `AddressSpace.MmStruct.RemoveRange` | mm/vma.c:249-257 | between cuts, removing intervals unmaps exactly the range |
| `AddressSpace.MmStruct.Delete` | mm/vma.c:205-259 | unmaps exactly the range and leaves no mergeable neighbours; without memory for a cut the map is unchanged |
| `AddressSpace.MmStruct.FlagRange` | mm/vma.c:310-318 | between cuts, new flags override exactly the range |
| `AddressSpace.MmStruct.MergeAll` | mm/vma.c:123-143 | no mergeable neighbours remain, and no address changes |
| `AddressSpace.MmStruct.Protect` | mm/vma.c:261-323 | with memory for the cuts, succeeds exactly if the range is fully mapped, overrides exactly the range and leaves the canonical list |
| `AddressSpace.AddThenDelete` | mm/vma.c:182-259 | unmapping a new mapping restores the very list there was |
| `AddressSpace.ChangesCommute` | mm/vma.c:182-323 | changes to ranges that do not meet give the same list in either order |
| `Mmap.RangeValid` | mm/mmap.c:54-76 | the check with wrapping arithmetic means that the range lies in user space |
| `Mmap.RangeIsFree` | mm/mmap.c:78-98 | true exactly if the range is valid and nothing in it is mapped |
| `Mmap.FindFreeFrom` | mm/mmap.c:100-129 | the least candidate address from start on whose range is valid and free; 0 exactly if there is none, or if the search starts in the first page |
| `Mmap.FindFree` | mm/mmap.c:131-149 | the least fit from the hint on if that lies a page above the heap and anything fits there; else the least page boundary at least a page above the heap that fits, 0 exactly if none does |
| `Mmap.SearchBase` | mm/mmap.c:134-139 | the least page boundary a page above the heap, or the second page if that wraps around |
| `Mmap.HeapSearch` | mm/mmap.c:131-149 | a search from there finds the least page boundary a page above the heap that fits |
| `Mmap.PickTarget` | mm/mmap.c:198-222 | MAP_FIXED takes the given address or fails; else the last page boundary not above the address if the range fits there, then the least fit from it or above the heap, and -ENOMEM exactly if there is none |
| `Mmap.HintOf` | mm/mmap.c:211 | the greatest multiple of the page size not above the address |
| `Mmap.PageLength` | mm/mmap.c:183-186 | the least multiple not below the length, 0 if that wraps around |
| `Mmap.MapAnonymous` | mm/mmap.c:165-235 | exactly the range at that address becomes mapped, with the length rounded up to pages; refused, and nothing changed, exactly if the length is 0 or wraps or there is no such address |
| `Mmap.ReturnedAddress` | mm/mmap.c:177-234 | the result, kept in an int, is the address if and only if that is below 2^31 |
| `Mmap.ReturnedAddressTruncated` | mm/mmap.c:177-234 | an address that is returned truncated |
| `SlabRuns.SlotBase` | mm/slab.c:17 | masking an object address gives its slab |
| `SlabRuns.SlotsApart` | mm/slab.c:63-83 | different objects share no byte, and none touches a slab header or leaves its page |
| `SlabRuns.NextInv` | mm/slab.c:306-467 | every critical section keeps each slot in exactly one place |
| `SlabRuns.RunInv` | mm/slab.c:306-553 | so in every interleaving of CPUs |
| `SlabRuns.LiveKept` | mm/slab.c:470-525 | no step but its own free takes a live object away or hands it out again |
| `SlabRuns.LiveUntilFreed` | mm/slab.c:470-525 | in every run an object stays live, its slab stays allocated and nobody else is given it until it is freed |
| `SlabRuns.LiveApart` | mm/slab.c:470-494 | in every run two objects of the cache share no byte |
| `SlabRuns.DrainedReturnsAll` | mm/slab.c:527-553 | with every slot free and no idle slab there is no slab left |
| `Slab.ChainBound` | mm/slab.c:115-140 | a slab has at most objects_per_slab free objects, and with that many no other object |
| `Slab.TakeChains` | mm/slab.c:316-362 | unlinking the first free object keeps every free list a chain and inuse its complement |
| `Slab.ReturnChains` | mm/slab.c:365-398 | so does linking a live object in front |
| `Slab.IdleMeans` | mm/slab.c:385-390 | inuse is 0 exactly if every object is on the free list |
| `Slab.MoveOk` | mm/slab.c:356-396 | a slab moves to the list its inuse count decides |
| `SlabCache.KmemCache.constructor` | mm/slab.c:206-226 | an empty cache with empty magazines of the full size, refilled by half of it |
| `SlabCache.KmemCache.AllocLocked` | mm/slab.c:316-362 | takes a free object, none exactly if there is none; no check panics |
| `SlabCache.KmemCache.ObjIsFree` | mm/slab.c:115-140 | walks the linked free list and finds an object exactly if it is on it; no check panics |
| `SlabCache.KmemCache.FreeLocked` | mm/slab.c:365-398 | the object goes back to its slab, which leaves the cache exactly when idle; panics exactly if the object is not handed out |
| `SlabCache.KmemCache.AllocDetached` | mm/slab.c:267-304 | the links of a new slab run through all its objects in address order |
| `SlabCache.KmemCache.AddSlabLocked` | mm/slab.c:306-310 | a new slab adds its slots as free |
| `SlabCache.KmemCache.RefillPass` | mm/slab.c:413-423 | takes objects until the batch is reached or none is free |
| `SlabCache.KmemCache.NewSlab` | mm/slab.c:429-436 | a fresh page becomes a slab with a free object; no live object changes |
| `SlabCache.KmemCache.Refill` | mm/slab.c:403-440 | reaches the batch and does not exceed it, unless every object is taken and no page can be had |
| `SlabCache.KmemCache.Drain` | mm/slab.c:442-467 | returns exactly min(batch, count) objects and the pages of the slabs this empties, at most MAG_SIZE |
| `SlabCache.KmemCache.DrainOne` | mm/slab.c:454-461 | the last object of the magazine goes back; its slab is returned exactly when it leaves the cache |
| `SlabCache.KmemCache.Alloc` | mm/slab.c:470-494 | an object nobody holds; none exactly if magazine, slabs and page supply are all exhausted |
| `SlabCache.KmemCache.PopLocal` | mm/slab.c:477-483 | the last object of the magazine becomes live |
| `SlabCache.KmemCache.Free` | mm/slab.c:496-525 | for every address: panics exactly if its page is no slab or it is in this CPU's magazine; what is not in use goes unnoticed exactly if its page is a slab and it is not in this magazine; the cache is valid afterwards exactly if it panicked, the address was NULL or the object was in use, which then enters the magazine |
| `SlabCache.NoPlaceFits` | mm/slab.c:496-525 | with an unnoticed entry no assignment of one place to each object fits the lists, links and magazines |
| `SlabCache.FreedTwice` | mm/slab.c:496-525 | an object freed on CPU 0 and again on CPU 1: the second free returns, and both magazines will hand the object out next |
| `SlabCache.KmemCache.PushLocal` | mm/slab.c:415-421 | an object just taken enters the magazine |
| `SlabCache.KmemCache.ReclaimIdle` | mm/slab.c:539-552 | an idle slab leaves the cache |
| `SlabCache.KmemCache.DrainMagazines` | mm/slab.c:529-536 | every magazine is empty, and the returned pages are the slabs that left |
| `SlabCache.KmemCache.DrainAll` | mm/slab.c:527-553 | empties all magazines and releases idle slabs; with nothing in use every page is released |
| `SlabCache.KmemCache.SetMagazine` | mm/slab.c:555-563 | refuses bad sizes, otherwise drains and sets them |
| `SlabCache.ValidMeansSlot` | mm/slab.c:85-106 | the address check accepts exactly the objects of the slab |
| `Kmalloc.CacheGeometry` | mm/slab.c:158-204 | as many objects as fit behind the header, none exactly if one does not fit |
| `Kmalloc.CacheAlignIs` | mm/slab.c:190 | the least multiple of 8 not below the alignment asked for, 8 if none is |
| `Kmalloc.GeometryTight` | mm/slab.c:153-193 | objects begin at the first boundary behind the header, and an object takes the least multiple of the alignment that holds it |
| `Kmalloc.ObjectsAligned` | mm/slab.c:153-164 | every object lies at a multiple of the cache alignment |
| `Kmalloc.SizeToIndex` | mm/slab.c:166-177 | the least size class that holds the request, none exactly above 2048 bytes |
| `Kmalloc.SlotsNotPages` | mm/slab.c:595-611 | an object of a slab never goes to the page allocator |
| `Kmalloc.Kfree` | mm/slab.c:595-611 | a pointer goes there exactly if it is page-aligned and its page is marked for no slab, and then exactly its block stops being live |
| `Words.NextPowerOfWord` | lib/utils.c:13-23 | for a number of pages in a word it gives the pages of the least block that holds them, 0 exactly above 2^31 |
| `Words.WordOrder` | mm/buddy.c:66-75 | the comparison of two words is that of their numbers |
| `Words.NToOrder` | mm/buddy.c:66-75 | the exponent of a power of two, and 0 for 0 |
| `Words.PagesOrder` | mm/buddy.c:410-413 | the order alloc_pages_kva asks for: the least that holds the low 32 bits of the number of pages, 0 if those are above 2^31 |
| `Words.BlockHolds` | mm/buddy.c:410-413 | a block of that order holds the pages if and only if there are at most 2^31, and no smaller block does |
| `Kmalloc.LargeFits` | mm/slab.c:573-576 | so the block holds the size if and only if that is at most 2^31 pages, with the wrap of the rounding taken into account |
| `Kmalloc.LargeAlloc` | mm/slab.c:573-576 | kmalloc above the largest class makes exactly one such block live, marked for no slab; it fails exactly if the page allocator has none |
| `Kmalloc.OnePageForTooMany` | mm/buddy.c:410-413 | 2^31 + 1 pages are asked for, and the block is one page |
| `Kmalloc.LargeRoundTrip` | mm/slab.c:566-611 | kfree of a block that kmalloc took from the page allocator for a size returns exactly that block |
| `Ext2Bitmap.NumberRoundTrip` | fs/ext2/ext2_bitmap.c:30-46 | the number of a bit leads back to its group and bit |
| `Ext2Bitmap.BitRoundTrip` | fs/ext2/ext2_bitmap.c:30-46 | the group and bit of a number lead back to it |
| `Ext2Bitmap.Ffz` | fs/ext2/ext2_bitmap.c:79-91 | the lowest clear bit of a word |
| `Ext2Bitmap.MarkBit` | fs/ext2/ext2_bitmap.c:122-133 | setting a clear bit and counting down keeps the counters the numbers of clear bits |
| `Ext2Bitmap.ClearBit` | fs/ext2/ext2_bitmap.c:157-166 | clearing a set bit and counting up keeps them |
| `Ext2Bitmap.ScanBitmap` | fs/ext2/ext2_bitmap.c:79-91 | the first clear bit below the limit, word by word; none exactly if all are set |
| `Ext2Bitmap.Bitmap.constructor` | fs/ext2/ext2_bitmap.c:94-96 | bitmaps and counters as mounted |
| `Ext2Bitmap.Bitmap.Alloc` | fs/ext2/ext2_bitmap.c:94-141 | the least available number of the readable groups is taken and nothing else; the counters keep counting clear bits |
| `Ext2Bitmap.Bitmap.Release` | fs/ext2/ext2_bitmap.c:143-168 | clears one bit; the counters still count the clear bits if and only if the block was in use |
| `Ext2Bitmap.Bitmap.ReleaseInode` | fs/ext2/ext2_bitmap.c:220-245 | likewise for inodes, with the check on the number: the counters stay right if and only if the inode was in use |
| `Ext2Bitmap.ReleasedTwice` | fs/ext2/ext2_bitmap.c:143-168 | a block of a full group released twice: both calls succeed and the counters are wrong |
| `Ext2Tree.WalkUnique` | fs/ext2/ext2_blk.c:44-93 | a block is reached from the inodes in one way only |
| `Ext2Tree.AttachTree` | fs/ext2/ext2_blk.c:116-277 | attaching a free block at an empty place keeps all trees disjoint |
| `Ext2Tree.AttachMaps` | fs/ext2/ext2_blk.c:116-277 | and changes where a path leads only if it ends at that place |
| `Ext2Tree.RouteFacts` | fs/ext2/ext2_blk.c:52-92 | the index arithmetic gives every file block a path within the pointers and words there are |
| `Ext2Tree.RouteInjective` | fs/ext2/ext2_blk.c:52-92 | and different file blocks different paths |
| `Ext2Tree.RouteNumbers` | fs/ext2/ext2_blk.c:44-93 | the path of a file block ends at its number in the order of the trees, and there is one exactly below 12 + n + n^2 + n^3 |
| `Ext2Tree.RouteBack` | fs/ext2/ext2_blk.c:44-93 | every full path is the path of the file block with that number |
| `Ext2Tree.RouteMapsTo` | fs/ext2/ext2_blk.c:44-93 | the walk along it reads i_data[index], or words i, j and k of the indirect blocks with index = 12 + i, 12 + n + i * n + j, or 12 + n + n^2 + (i * n + j) * n + k |
| `Ext2Tree.MapsToOne` | fs/ext2/ext2_blk.c:44-93 | these words determine the block of every file block |
| `Ext2Blocks.AttachInner` | fs/ext2/ext2_blk.c:182-196 | an added indirect block changes no mapping |
| `Ext2Blocks.AttachLeaf` | fs/ext2/ext2_blk.c:201-214 | an added data block changes the mapping of its file block only |
| `Ext2Blocks.StepThen` | fs/ext2/ext2_blk.c:182-214 | indirect blocks first and then the data block compose to the mapping of one file block |
| `Ext2Volume.Volume.constructor` | fs/ext2/ext2_cache.c:28-43 | a mounted volume with an empty cache |
| `Ext2Volume.Volume.CacheFind` | fs/ext2/ext2_cache.c:60-71 | the valid entry of a block, none exactly if there is none |
| `Ext2Volume.Volume.SelectVictim` | fs/ext2/ext2_cache.c:73-88 | an unused entry, or else the least recently used one |
| `Ext2Volume.Volume.CacheRead` | fs/ext2/ext2_cache.c:90-144 | the word of the block as it is on the disk, 0 for no block; a cached block needs no page and no read; the block is then the one used last, in its entry or in one that was not in use or the least recently used; all other entries stay |
| `Ext2Volume.Volume.CacheWrite` | fs/ext2/ext2_cache.c:146-169 | the copy is dropped before the block is written |
| `Ext2Volume.Volume.CacheInvalidate` | fs/ext2/ext2_cache.c:171-186 | no valid entry of the block remains |
| `Ext2Volume.Volume.AllocInodeBlock` | fs/ext2/ext2_blk.c:14-27 | a free block, counted in i_blocks; 0 exactly if none is free or the count would overflow |
| `Ext2Volume.Volume.EnsureRoot` | fs/ext2/ext2_blk.c:101-149 | an empty inode pointer gets a free block that reads as zeros; every other mapping and all data are kept |
| `Ext2Volume.Volume.EnsureChild` | fs/ext2/ext2_blk.c:158-170 | an empty word of an indirect block gets a free block that reads as zeros; every other mapping and all data are kept |
| `Ext2Volume.Volume.Mapping` | fs/ext2/ext2_blk.c:44-93 | the word of the inode, or of the one, two or three indirect blocks, that the position of the file block in the trees names; 0 for a hole; -EFBIG exactly from 12 + n + n^2 + n^3 on |
| `Ext2Volume.Volume.Descend` | fs/ext2/ext2_blk.c:58-62 | one step of the walk, through the cache |
| `Ext2Volume.Volume.MapDouble` | fs/ext2/ext2_blk.c:65-72 | the double indirect case |
| `Ext2Volume.Volume.MapTriple` | fs/ext2/ext2_blk.c:76-90 | the triple indirect case |
| `Ext2Volume.Volume.SetMapping` | fs/ext2/ext2_blk.c:116-277 | that word then holds the block returned, the old one or a new one that reads as zeros, and every other file block of every inode stays; -ENOMEM, -EFBIG and -ENOSPC exactly in their cases, the first two without a change |
| `Ext2Volume.Volume.SetSingle` | fs/ext2/ext2_blk.c:154-173 | the single indirect case |
| `Ext2Volume.Volume.SetDouble` | fs/ext2/ext2_blk.c:178-215 | the double indirect case |
| `Ext2Volume.Volume.SetTriple` | fs/ext2/ext2_blk.c:220-273 | the triple indirect case |
| `Ext2Volume.Volume.WriteData` | fs/ext2/ext2_blk.c:138-140 | writing a data block disturbs neither trees nor cache |
| `Ext2Volume.Volume.ReleaseInodeBlock` | fs/ext2/ext2_blk.c:29-42 | one block back, one block less in i_blocks; the check on i_blocks cannot fail |
| `Ext2Volume.Volume.ReleaseBranch` | fs/ext2/ext2_blk.c:279-321 | every block below an indirect block is released exactly once, and none of them stays cached |
| `Ext2Volume.Volume.FreeInodeBlocks` | fs/ext2/ext2_blk.c:323-381 | exactly the blocks of the inode become free, i_blocks is 0, all pointers are 0, everything else is unchanged |
| `Ext2Release.SubsApart` | fs/ext2/ext2_blk.c:279-321 | blocks of one level have no block below them in common |
| `Ext2Release.AllOwned` | fs/ext2/ext2_blk.c:323-381 | the blocks an inode owns are those below its pointers |
| `Ext2Release.WithoutTree` | fs/ext2/ext2_blk.c:323-381 | without the blocks of one inode the trees of the others remain |
| `Ext2Release.AllReleased` | fs/ext2/ext2_blk.c:323-381 | and counts, bitmap and cache fit them |
| `Ext2Volume.SetMappingFrame` | fs/ext2/ext2_blk.c:116-277 | in file block numbers: the mapped one reads back, every other one of every inode is unchanged |
| `Ext2Volume.SetMappingWords` | fs/ext2/ext2_blk.c:116-277 | and so every other file block is read from the words it was read from |
| `Ext2Volume.FileBlocksDistinct` | fs/ext2/ext2_blk.c:44-93 | two file blocks never share a disk block |
| `DirPage.InitReads` | fs/ext2/ext2_dir.c:545-551 | a written entry reads back with its inode, length, file type and name, and no other byte changes |
| `DirPage.FillEntry` | fs/ext2/ext2_dir.c:708-709 | filling an unused entry keeps the page an exact chain of entries |
| `DirPage.SplitEntry` | fs/ext2/ext2_dir.c:702-709 | so does splitting an entry behind its name |
| `DirPage.MergeEntry` | fs/ext2/ext2_dir.c:588-590 | so does giving an entry's space to the one before it |
| `DirPage.ClearEntry` | fs/ext2/ext2_dir.c:590-592 | so does marking the first entry unused |
| `DirBlocks.EachBlock` | fs/ext2/ext2_dir.c:720-760 | if every block boundary is a boundary between entries, the entries of each block fill it exactly |
| `DirBlocks.KeepsBlocks` | fs/ext2/ext2_dir.c:702-709 | filling or splitting an entry loses no boundary |
| `DirBlocks.SameBlocks` | fs/ext2/ext2_dir.c:590-592 | clearing the first entry changes none |
| `DirBlocks.MergeBlocks` | fs/ext2/ext2_dir.c:588-590 | giving an entry's space to the one before it keeps the blocks chains if and only if the entry is not the first of a block |
| `DirScan.FindInPage` | fs/ext2/ext2_dir.c:410-421 | the first entry of the page with the name, none exactly if there is none |
| `DirScan.SlotInPage` | fs/ext2/ext2_dir.c:508-537 | the first unused entry, or space behind a name, that is large enough; none exactly if no entry up to and including the first unused one has room |
| `DirScan.AddInPage` | fs/ext2/ext2_dir.c:689-709 | the page binds one more name, its blocks stay chains, and with the slot found its entries are those the list specification inserts |
| `DirScan.DeleteInPage` | fs/ext2/ext2_dir.c:578-600 | the page binds the first occurrence of the name no more, and its entries are those the list specification erases; its blocks stay chains if and only if that entry was the first of the page or not the first of a block |
| `DirEntries.InsertAt` | fs/ext2/ext2_dir.c:508-537 | what is inserted into a list of entries is decided by the first one that is large enough |
| `DirEntries.InsertNone` | fs/ext2/ext2_dir.c:508-537 | nothing is inserted exactly if every entry before and at the first unused one is too small |
| `DirEntries.EraseAt` | fs/ext2/ext2_dir.c:578-600 | the first entry of the name, unless it is the first of the page, is absorbed by the one before it |
| `DirEntries.EraseNone` | fs/ext2/ext2_dir.c:578-600 | nothing is erased exactly if no entry has the name |
| `Directory.Dir.constructor` | fs/ext2/ext2_dir.c:382-390 | a directory of whole blocks, each page an exact chain of entries |
| `Directory.Dir.Find` | fs/ext2/ext2_dir.c:392-426 | the inode of the first binding of the name, none exactly if it is not bound |
| `Directory.Dir.Delete` | fs/ext2/ext2_dir.c:562-606 | the first binding of the name is gone, its entry given to the one before it, and the others stay, -ENOENT exactly if there was none; each block stays a chain of its own if and only if the entry was the first of its page or not the first of a block |
| `Directory.Dir.AddEntry` | fs/ext2/ext2_dir.c:762-775 | one more binding: the first page whose list of entries has room gets it, as the specification says, or a new block if none has; blocks that are chains stay so |
| `Directory.Dir.AddInNewBlock` | fs/ext2/ext2_dir.c:720-760 | the new last block holds the entry alone, the other entries stay, i_size grows by a block, and blocks that are chains stay so |
| `DirRuns.NewDir` | fs/ext2/ext2_dir.c:647-687 | a new directory: one block with the entries . and .. |
| `DirRuns.LongNames` | fs/ext2/ext2_dir.c:762-775 | long names added to it fill the first block, one behind the other |
| `DirRuns.DeleteStraddles` | fs/ext2/ext2_dir.c:588-589 | with blocks of 1024 bytes, four long names added to a new directory and the fourth deleted: the entry before it reaches into the second block |
| `DirRuns.RoomGivenUp` | fs/ext2/ext2_dir.c:511-514 | with blocks of 4096 bytes, names added until the second block begins, its first entry deleted and a longer name added: it goes to a third block, although the second has room behind the unused entry |
| `Directory.AddedLookUp` | fs/ext2/ext2_dir.c:689-718 | after an addition the new name is found and every other one as before |
| `Directory.RemovedLookUp` | fs/ext2/ext2_dir.c:562-606 | with unique names, after a deletion the name is not found and every other one as before |
| `PageIo.MarkDirtyRange` | include/fs/pagecache.h:72-95 | exactly the blocks the range touches become dirty, and a page dirty as a whole stays so; -EINVAL exactly for bad sizes or a range beyond the page |
| `PageIo.TouchedBlocks` | include/fs/pagecache.h:72-95 | the blocks with a byte in the range are those between the two quotients |
| `PageIo.Submit` | fs/ext2/ext2_dir.c:101-121 | a batch transfers as many single blocks would |
| `PageIo.WriteBatch` | fs/ext2/ext2_dir.c:112-117 | a batch writes exactly its blocks, each from its place in the page |
| `PageIo.ReadBatch` | fs/ext2/ext2_dir.c:112-120 | a batch fills exactly its blocks of the page |
| `PageIo.RwPage` | fs/ext2/ext2_dir.c:123-197 | a read equals block-by-block reads; a write updates exactly the mapped blocks dirty_blocks names, all when it is 0 |
| `PageIo.DirtyReachesDisk` | fs/ext2/ext2_dir.c:123-197 | after a successful write every dirty block is on the disk if and only if blocks were marked one by one or the page has no hole |
| `PageIo.HoleDropped` | fs/ext2/ext2_dir.c:123-197 | a page dirty as a whole with one block mapped of four: the write succeeds and a dirty block is not on the disk |
| `ReadPages.SubmitRead` | fs/ext2/ext2_dir.c:199-209 | a request, which must be within the device limits, fills its parts of pages in disk order |
| `ReadPages.CopyPart` | fs/ext2/ext2_dir.c:199-209 | one part of a request gets its blocks |
| `ReadPages.ReadBatch` | fs/ext2/ext2_dir.c:199-209 | after a submission no request is pending and all blocks so far are read |
| `ReadPages.ReadPage` | fs/ext2/ext2_dir.c:281-335 | after a page every block so far is read or pending in one request of consecutive disk blocks within the limits of bytes and parts; stops exactly at a mapping error |
| `ReadPages.ZeroTail` | fs/ext2/ext2_dir.c:338-346 | every byte of the pages is the byte of the file there, and 0 in holes and behind its end |
| `ReadPages.ReadPages` | fs/ext2/ext2_dir.c:213-350 | every byte of every page is the one of its disk block inside the file, and 0 in holes and behind the end; fails exactly if the mapping of a block of the file does |
| `BlockIo.MapBuffer` | fs/blkdev.c:211-237 | the vectors cover the buffer, and the vector count the callers compute is exactly what is needed |
| `BlockIo.Disk.constructor` | fs/blkdev.c:471-472 | a disk of whole blocks |
| `BlockIo.Disk.SubmitRead` | fs/blkdev.c:239-254 | a request of whole blocks on a block boundary reads them |
| `BlockIo.Disk.SubmitWrite` | fs/blkdev.c:239-254 | and writes them |
| `BlockIo.Disk.ReadPartial` | fs/blkdev.c:353-416 | a part of one block, through the whole block; -EINVAL exactly if it crosses the block |
| `BlockIo.Disk.WritePartial` | fs/blkdev.c:256-313 | read, modify, write changes exactly the part, nothing for an empty one; -EINVAL exactly if it crosses the block |
| `BlockIo.Disk.ReadAligned` | fs/blkdev.c:418-454 | one request for whole blocks; -EOVERFLOW exactly above 2^32 - 1 bytes, -EINVAL exactly if it needs more than 65535 vectors below that |
| `BlockIo.Disk.WriteAligned` | fs/blkdev.c:315-351 | likewise, and then nothing is written |
| `BlockIo.Disk.ReadRaw` | fs/blkdev.c:457-524 | head, whole blocks and tail give exactly the bytes asked for, with block-aligned requests only; refused exactly if the whole blocks are too many for one request |
| `BlockIo.Disk.WriteRaw` | fs/blkdev.c:526-593 | exactly the bytes given are written, no other byte changes, with block-aligned requests only; only the head is written if the whole blocks are too many for one request, which is exactly when it fails |
| `BlockIo.Disk.ReadPartition` | fs/blkdev.c:595-610 | the bytes at the 64-bit sum of start and position; refused exactly if the 64-bit sum of position and length is beyond the end, or by the request or the device |
| `BlockIo.Disk.WritePartition` | fs/blkdev.c:612-626 | exactly the bytes given are written there, and nothing outside the partition changes unless position and length wrap; refused likewise |
| `BlockIo.InPartition` | fs/blkdev.c:612-626 | a transfer that passes the check stays in the partition if and only if its end does not wrap around; else it lies before its start or behind the disk |
| `BlockIo.PartitionEscaped` | fs/blkdev.c:612-626 | a write of a sector to a partition behind the first sector whose end wraps to 0: it succeeds and replaces the first sector |
| `BlockIo.SmallTransfer` | fs/blkdev.c:315-351 | up to 65534 pages every transfer goes through, wherever its buffer begins |
| `BlockIo.LargeTransfer` | fs/blkdev.c:315-351 | 256 MiB in pages of 4 KiB do not |
| `Division.DivideWord` | lib/utils.c:117-137 | the shift-subtract loop with carry divides a two-word number |
| `Division.DivideU32` | lib/utils.c:64-86 | quotient and remainder for every dividend and positive divisor, although the shift drops its carry |
| `Division.DivModU64` | lib/utils.c:94-142 | num = q * d + r with r < d for every d > 0, and zeros for d = 0 |
| `Division.NextPowerIsLeast` | lib/utils.c:13-23 | the least power of two not below n, up to 2^31; 0 above that |
| `NumberFormat.Digits` | lib/vsprintf.c:136-146 | digits of the base in the case asked for that read back as the value, as many as it has without leading zeros, and at most the 64 of the buffer |
| `NumberFormat.NumeralUnique` | lib/vsprintf.c:136-146 | numerals of one length and value are equal |
| `NumberFormat.PrintOutput.constructor` | lib/vsprintf.c:25-29 | an empty output |
| `NumberFormat.PrintOutput.Put` | lib/vsprintf.c:31-36 | the character is counted, and stored if it fits before the terminator; nothing else is written |
| `NumberFormat.PrintOutput.PutRepeat` | lib/vsprintf.c:38-42 | n times the character, none if n is negative |
| `NumberFormat.PrintOutput.PutReversed` | lib/vsprintf.c:181-182 | the digits in reading order |
| `NumberFormat.LeadingZeros` | lib/vsprintf.c:180 | zeros in front change no value |
| `NumberFormat.DigitRoundTrip` | lib/vsprintf.c:113-114 | a digit character reads back as its digit |
| `NumberFormat.FormatNumber` | lib/vsprintf.c:109-186 | the text reads back as the number with its sign; it is made of blanks, sign, prefix and a numeral of the base in the case asked for, exactly as long as digits, precision and the octal zero need, filled to the width on the side and with the character the flags ask for |
| `NumberFormat.RendersOne` | lib/vsprintf.c:109-186 | that promise determines every character |
| `NumberFormat.BareLeast` | lib/vsprintf.c:136-154 | the numeral has as many characters as the digits, the precision and the octal zero need, and no more |
| `NumberFormat.WidthFilled` | lib/vsprintf.c:155-186 | the width is reached and not exceeded; blanks or zeros stand on the side the flags say |
| `NumberFormat.TextReadsBack` | lib/vsprintf.c:109-186 | a reader that skips blanks and takes a sign, an optional 0x and digits gets the value, negated exactly if the number is negative |
| `NumberFormat.SignShown` | lib/vsprintf.c:123-134 | behind the filling blanks stands - exactly if negative, else + or a blank as the flags ask, and then 0x or 0X exactly for base 16 with the alternative form of a nonzero value or a forced prefix |
| `NumberFormat.ZeroFlagKept` | lib/vsprintf.c:148-178 | the zero flag without precision fills the width with zeros if and only if no octal zero is forced |
| `NumberFormat.OctalEight` | lib/vsprintf.c:148-178 | %08o of 8 is 00000010 |
| `NumberFormat.OctalEightAlternative` | lib/vsprintf.c:148-178 | %#08o of 8 is five blanks and 010 |

## Left out

- PageTableWalk.PgTable.Remap: requires a mapped range; a walk through an invalid entry, which remap_cb does not check for, is not modelled.
- PageTableWalk.PgTable.RemapPage: requires a mapped address, for the same reason.
- PageTableWalk.PgTable.Map: tables can always be allocated; wrap-around of the end of the range is not modelled.
- Ext2Bitmap.Bitmap.Release: requires a block of the volume, which the source does not check.
- AddressSpace.MmStruct.Add: requires that start + len does not wrap, which vma_add does not check, and does not model a failing allocation, which it tests for as NULL where vma_create returns an error pointer.
- Virtqueue.Queue.constructor: requires a queue size that divides 2^16; section 2.6 of VIRTIO 1.1 demands a power of two.
- Virtqueue.Queue.GetBuf: the device is a conforming one and reports only chains it has taken.
- Kmalloc.CacheGeometry: alignments are 0 or powers of two, for which the masks of the source round up.
- LogRing.Ring.Store: requires a text that fits its 16-bit field together with the truncation mark; the only caller passes at most 1023 bytes.
- LogOversized.StoreTwice: requires a length field that is not 0, because the second store then drops the record instead; `LogOversized.ReadOnce` says what a reader gets.
- ConsoleHandoff.Handoff.StoreSection: requires a record that fits its length field, as printk without a dictionary makes it.
- ConsoleHandoff.Handoff.ConsoleKick: the loop is run by one thread; what interleaved sections do is in `ConsoleRuns`.
- SlabCache.KmemCache.SetMagazine: no other CPU uses the cache between the drain and the new sizes.
- Kmalloc.Kfree: the pointer is one that kmalloc returned; the object branch is `SlabCache.KmemCache.Free`.
- Ext2Volume.Volume.CacheWrite: a failing disk write is not modelled.
- Ext2Volume.Volume.EnsureRoot: disk errors in the middle of growing a tree are not modelled.
- Ext2Volume.Volume.EnsureChild: disk errors in the middle of growing a tree are not modelled.
- Ext2Volume.Volume.SetSingle: disk errors in the middle of growing a tree are not modelled.
- Ext2Volume.Volume.SetDouble: disk errors in the middle of growing a tree are not modelled.
- Ext2Volume.Volume.SetTriple: disk errors in the middle of growing a tree are not modelled.
- Ext2Volume.Volume.SetMapping: disk errors in the middle of growing a tree are not modelled.
- Ext2Volume.Volume.ReleaseInodeBlock: disk errors while a tree is released are not modelled.
- Ext2Volume.Volume.ReleaseBranch: disk errors while a tree is released are not modelled.
- Ext2Volume.Volume.FreeInodeBlocks: disk errors, i_size and the pages in the page cache are not modelled.
- Directory.Dir.AddEntry: disk errors and a full volume are not modelled; neither are damaged pages, for which the source checks for an entry length of 0.
- Directory.Dir.AddInNewBlock: the failing allocation of the block is not modelled.
- PageIo.RwPage: failing transfers are not modelled, failing mappings are.
- ReadPages.ReadPages: likewise, and its argument checks are a precondition.
- Mmap.MapAnonymous: the checks of flags and protection are left out.
- BlockIo.Disk.ReadRaw: every submitted request inside the disk succeeds, and memory for it can be allocated; blocks larger than a page are not modelled.
- BlockIo.Disk.WriteRaw: likewise.
- BlockIo.Disk.ReadPartition: requires that disk and buffer have at most 2^63 bytes.
- BlockIo.Disk.WritePartition: likewise.
- NumberFormat.FormatNumber: widths and precisions are unbounded; the int that holds the padding overflows in the source for a width of -1, a precision of 2^31 - 1 and a sign.
- Words.NToOrder: requires a power of two or 0, which is all its caller passes; for other words above 2^31 the loop of the source does not end.
- Kmalloc.LargeAlloc: requires pages of at most 4 GiB.
- ConsoleHandoff.Handoff.DrainOne: the loop is run by one thread, as for `ConsoleHandoff.Handoff.ConsoleKick`.
- ConsoleHandoff.Handoff.DrainAll: likewise.
- Block numbers are unbounded: ext2_block_mapping returns an int, which reads numbers from 2^31 on as errors.
- Statistics counters (hits, misses, refills, drains, evictions) and the page fields mapping and refcount.
- Memory barriers, interrupt masking and the locks themselves: a critical section is one step.
- TLB flushing, cache maintenance and the architecture hooks of the page tables.
- console_register and console_flush_sync, printk's text formatting and timestamps.
- Page cache locking, readahead and reclaim; inode and dentry reference counts; crash consistency.
- mprotect's loop over the page table, munmap's page table part, page faults, fork and the copying of address spaces.
- memblock, device tree, drivers, terminals, pipes, scheduling, mutexes, work queues and file descriptors: easier than what is modelled, or register plumbing.
