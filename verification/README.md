# ZGMOS kernel models

Dafny models of the parts of the ZGMOS kernel that carry its hard state, with proofs of what they keep over
whole runs. Five layers are modelled, each against a simple specification, and the layers above use the ones
below.

- **Buddy allocator.** `Buddy` rewrites the array of list heads and the page records in place, as
  `kernel/buddy.c` does; `BuddyLists` says what the threaded lists hold, `BuddyBlocks` what splitting and
  coalescing do to sets of blocks, `BuddyRuns` what whole runs keep. `PageSupply` takes the pages of a process
  from it.
- **Page tables.** `PageTable` rewrites 512-entry tables in place, `PageRange` adds the range loops; `PageTree`
  and `PageMap` relate the tree to a finite map from pages to leaves, `PageRuns` lifts that to runs, and `Sv39`
  compares it with the address translation of section 4.3.2 of the RISC-V privileged specification with the Sv39
  parameters of section 4.4. `PageEntry` holds the encodings, on 64-bit words; `Words` relates words to numbers.
- **FAT32.** `SectorCache` is the write-back cache of sector buffers in place, `CacheState` and `Recency` its
  specification: a plain array of sectors, and the order of last access. Its list of buffers is a ring of
  `ListHead`, the circular list of `kernel/list.h` in place. `FatLayout` and `FileData` describe
  chains and the bytes of files, `Directory` the entries of directories; `FatVolume` and `DirectoryScan` are the
  loops that read them through the cache. `FatFormat` and `DirFormat` lay out boot sectors, tables and directory
  entries as the FAT specification has them, and prove that the code reads them back.
- **Slab and kmem.** `Slab` threads free objects through their own words in place; `Kmem` keeps such slabs of nine
  caches on their lists, in blocks of the buddy allocator.
- **Clients.** `Vfs` reads files through 4 KiB blocks over a FAT32 volume, `Loader` loads program segments through
  `Vfs` into a page table; `ElfFormat` lays out program headers as the System V ABI has them. `Spinlock` is the
  lock as an interleaving of single memory accesses.

`StrayVolume`, `BlockedReads` and `UnclearedBytes` are runs on concrete disks of 512-byte sectors, whose common parts
are in `SmallDisk`, from the mounting of the disk to a line that does not do what is expected of it.

`dafny verify dfyconfig.toml` checks everything.

## Readings

Some lines do not do what their surroundings rely on. The models keep the code as it is, prove exactly when it
works, and carry a second reading where the properties need it.

- `kernel/buddy.c:137` empties the whole list where line 168 keeps its tail. As written, non-overlap, alignment
  and the page counter hold in every run (`BuddyRuns.RunKeeps`). The canonical form holds exactly for the runs
  that lose no page (`BuddyRuns.CanonicalIffBenign`). Those runs are also complete (`BuddyRuns.BenignComplete`),
  but a run that lost pages may be complete as well: refusals of an order are right exactly under the condition
  of `BuddyRuns.RefusedRightIff`, for single pages that of `BuddyRuns.PageRefusedRightIff`, and
  `BuddyRuns.RefusedAsWritten` is a request that is refused wrongly.
- `kernel/buddy.c:146-149` sets -1 and goes on, although line 178 tests for it. As written such a request reads
  and writes past the list heads; the model stops there (`None`).
- `kernel/buddy.c:98-110` believes the record of whatever page is freed. On an interior page of a live block the
  record is a stale one, and the check can pass (`Buddy.BuddySystem.CheckUsed`, `Buddy.FreeInsideLiveBlock`).
- `kernel/buddy.c:117-124` looks at twelve bits of the page count, so pages from 4096 on are counted but never
  listed (`BuddyRuns.InitCoversAllIffSmall`).
- `kernel/fat32.c:587` resets the byte offset only when a cluster ends. `FileData.ReadRightIffSafe` says which
  reads are right; those that `vfs_read` makes always are. The loop at lines 757-768 of the same file expects
  more.
- `kernel/fat32.c:462` goes to the next cluster number after a directory in the last entry of a cluster, where
  lines 421-424 follow the chain after a file. `DirectoryScan.StandsIffResumesRight` is exact for one call,
  `Directory.CallsRightIff` for a whole listing, and `StrayVolume.MountAndList` never yields a file of the disk.
- `kernel/fat32.c:275` looks at the sixth character of an 8.3 name, where the extension starts at the ninth.
  `DirFormat.ShortRightIff` says which short names are right; A.TXT loses its extension
  (`DirFormat.ExtensionLost`).
- `kernel/pte.c:170-207` ignores bits 63 to 39 of an address, on which the hardware faults unless they all equal
  bit 38 (`Sv39.WalkRightIff`).
- `kernel/vfs.c:52` and `kernel/vfs.c:62` take the list head for a block; `Vfs.FileCache.Read` says exactly when
  that matters, `BlockedReads.FreeBlocks` and `BlockedReads.NoRoom` are reads that fail there.
- `kernel/process.c:240` copies the file part of a segment and leaves the rest of its pages as they were, where
  the System V ABI asks for zeros. `Loader.SegmentReads` says what such bytes read as, `Loader.RestZeroIff` when
  they are zeros, and in `UnclearedBytes.LoadAndRead` they are not.
- An empty page table stays in the tree after unmapping and makes a later superpage mapping panic
  (`PageMap.EmptyTableBlocksSuperpage`).

## Model

| member | source | states |
|---|---|---|
| `BuddyBlocks.MergeSound` | kernel/buddy.c:205-241 | a free block and its free sibling make one aligned block inside the managed pages, disjoint from every other block, and of an order below 12, so the order never reaches MAX_BLOCK_POW |
| `BuddyBlocks.CoalesceKeeps` | kernel/buddy.c:197-247 | freeing leaves all blocks aligned, in range and pairwise disjoint, no two free siblings remain, and exactly the pages of the freed block become free |
| `BuddyBlocks.SplitKeeps` | kernel/buddy.c:151-168 | splitting down to an order keeps blocks aligned, in range and disjoint, keeps the free set maximally coalesced, and loses no page |
| `BuddyBlocks.HalveKeeps` | kernel/buddy.c:152-165 | one split keeps blocks aligned, in range and disjoint, and the free set maximally coalesced |
| `BuddyBlocks.FreeRunInOneBlock` | kernel/buddy.c:192-249 | in a coalesced state every aligned run of free pages lies inside one free block |
| `BuddyBlocks.RequestMetIffRunExists` | kernel/buddy.c:133-172 | in a coalesced state a list of order pow or more is non-empty exactly when an aligned run of 2^pow free pages exists |
| `BuddyBlocks.FreeSetDetermined` | kernel/buddy.c:192-249 | two coalesced free sets that cover the same pages are the same set of blocks |
| `BuddyBlocks.CoalesceWeight` | kernel/buddy.c:253-263 | coalescing adds exactly the pages of the freed block to the free pages |
| `BuddyBlocks.SplitWeight` | kernel/buddy.c:152-168 | splitting takes exactly the requested pages from the free pages |
| `BuddyBlocks.LostPageIff` | kernel/buddy.c:174-186 | the blocks weigh less than the managed pages exactly when some page is in none of them |
| `BuddyRuns.InitFromSound` | kernel/buddy.c:116-124 | the initial lists hold disjoint, aligned, maximally coalesced blocks |
| `BuddyRuns.InitFromPages` | kernel/buddy.c:116-124 | the initial lists cover exactly the pages counted by the low bits of the page count |
| `BuddyRuns.InitInv` | kernel/buddy.c:113-130 | the state after buddy_init meets the invariant, covers every managed page and leaks none |
| `BuddyRuns.InitCoversAllIffSmall` | kernel/buddy.c:117-124 | the initial lists hold every page exactly when fewer than 4096 pages are managed |
| `BuddyRuns.AllocKeeps` | kernel/buddy.c:133-186 | an allocation keeps the invariant in both readings; as written it loses pages exactly when the serving list has a second block |
| `BuddyRuns.FreeKeeps` | kernel/buddy.c:192-263 | freeing a live block keeps the invariant and the page accounts |
| `BuddyRuns.StepKeeps` | kernel/buddy.c:133-263 | every step keeps the invariant in both readings, never finds lost pages again, and loses some exactly when it is not benign; benign steps are the intended ones |
| `BuddyRuns.RunKeeps` | kernel/buddy.c:113-263 | after any run, in both readings, free and live blocks are aligned, in range and pairwise disjoint, nothing mergeable is unmerged, and free_pages plus the live pages is the total |
| `BuddyRuns.RefusedIffNoRun` | kernel/buddy.c:133-172 | completeness: in every state an intended run reaches, a request is refused exactly when no aligned run of that many pages is free of live blocks |
| `BuddyRuns.WrongIffLostRun` | kernel/buddy.c:133-172 | in both readings a request that some list can serve is never refused; one that no list can serve is wrongly refused exactly when an aligned run of free and lost pages, with a lost one, could serve it |
| `BuddyRuns.RefusedRightIff` | kernel/buddy.c:133-172 | completeness as written, exactly: in every state a run reaches, refusals of an order are right if and only if some list can serve it or no aligned run with a lost page could |
| `BuddyRuns.BenignComplete` | kernel/buddy.c:133-172 | as written, after a run that loses nothing, a request of any order is refused exactly when no aligned run is free of live blocks |
| `BuddyRuns.PageRefusedRightIff` | kernel/buddy.c:133-172 | as written, refusing a single page is right if and only if some list has a block or the page counter is down to the pages that were never listed |
| `BuddyRuns.HistoryIndependent` | kernel/buddy.c:133-249 | two intended runs that leave the same pages live leave the same free lists |
| `BuddyRuns.CanonicalForm` | kernel/buddy.c:113-263 | an intended run that ends with nothing live ends in the initial binary decomposition |
| `BuddyRuns.LeakIffNotBenign` | kernel/buddy.c:135-137 | as written, a run leaks pages exactly when some allocation was served by a list with a second block; without one it is the intended run |
| `BuddyRuns.CanonicalIffBenign` | kernel/buddy.c:135-137 | as written, freeing everything restores the initial lists exactly when every allocation was benign; the page counter is restored either way |
| `BuddyRuns.PagesLostAsWritten` | kernel/buddy.c:135-137 | a concrete run over six pages that frees everything and yet does not restore the initial lists as written |
| `BuddyRuns.RefusedAsWritten` | kernel/buddy.c:135-149 | a concrete run over six pages after which a request for two pages finds no list, though two aligned pages are live to nobody |
| `BuddyLists.Unlink` | kernel/buddy.c:225-237 | taking entry i out of a free list leaves every list ascending, terminated and of its order, without that block |
| `BuddyLists.Link` | kernel/buddy.c:211-244 | putting a record in its place in a free list leaves every list ascending, terminated and of its order, with that block |
| `BuddyLists.CutLinked` | kernel/buddy.c:154-165 | one split leaves the threaded lists right: the head of order j is replaced by its halves in order j - 1 |
| `BuddyLists.MergeableIffSiblings` | kernel/buddy.c:188-190 | the shift-and-xor test is true exactly for the two halves of one aligned block, lower half first |
| `BuddyLists.SiblingIsNeighbour` | kernel/buddy.c:219-240 | a sibling on the ascending list stands right before or right after the place of the block, so looking at the two neighbours suffices |
| `Buddy.BuddySystem.constructor` | kernel/buddy.c:113-130 | buddy_init builds the initial state of the runs |
| `Buddy.BuddySystem.BuildLists` | kernel/buddy.c:116-124 | the loop over the bits lists exactly the binary decomposition of the page count |
| `Buddy.BuddySystem.SetUsed` | kernel/buddy.c:84-96 | exactly the pages of the block get the used flag |
| `Buddy.BuddySystem.GetUsed` | kernel/buddy.c:98-110 | the flag of the first page; a panic exactly when some record of the block, up to the last one, has another flag; otherwise the loop leaves the records |
| `Buddy.BuddySystem.SplitOnce` | kernel/buddy.c:152-165 | one split in place replaces the head block by its two halves and touches only their two records |
| `Buddy.BuddySystem.TakeAndClear` | kernel/buddy.c:136-137 | as written, the head block is taken and every other block of that order is forgotten |
| `Buddy.BuddySystem.TakeHead` | kernel/buddy.c:167-168 | the head block alone leaves its list |
| `Buddy.BuddySystem.Carve` | kernel/buddy.c:151-168 | the split loop in place gives the lowest piece and the set of free blocks that splitting by halves gives; the records that change start a listed block or the piece |
| `Buddy.BuddySystem.FindOrder` | kernel/buddy.c:139-144 | the search finds the smallest sufficient order with a free block, or none |
| `Buddy.BuddySystem.AllocIndex` | kernel/buddy.c:133-172 | buddy_alloc_index as written makes the allocation step of a run, and goes past the array of lists exactly when no list of that order or more has a block |
| `Buddy.BuddySystem.AllocIndexIntended` | kernel/buddy.c:133-172 | with lines 137 and 146-149 as intended it makes the intended step, and returns -1 exactly when no such list has a block |
| `Buddy.BuddySystem.AddressRoundTrip` | kernel/buddy.c:75-81 | addresses and page indices convert back and forth |
| `Buddy.BuddySystem.BlockAddresses` | kernel/buddy.c:75-81 | the pages of a block are exactly the addresses from its first to its last byte |
| `Buddy.BuddySystem.BuddyAlloc` | kernel/buddy.c:174-186 | buddy_alloc as written is one step of a run and returns the address of the new live block |
| `Buddy.BuddySystem.BuddyAllocIntended` | kernel/buddy.c:174-186 | buddy_alloc around the intended index allocation is one intended step; NULL exactly when refused |
| `Buddy.BuddySystem.FindPlace` | kernel/buddy.c:217-222 | the search stops at the last entry below the block |
| `Buddy.BuddySystem.MergeFirst` | kernel/buddy.c:207-209 | merging with the first entry takes it off the list and raises the order of the block |
| `Buddy.BuddySystem.MergeBefore` | kernel/buddy.c:224-232 | merging with the entry before takes it off the list and raises its order |
| `Buddy.BuddySystem.MergeAfter` | kernel/buddy.c:236-239 | merging with the entry after takes it off the list and raises the order of the block |
| `Buddy.BuddySystem.InsertFirst` | kernel/buddy.c:201-213 | the block becomes the first entry; no other block, flag or order changes |
| `Buddy.BuddySystem.InsertAfter` | kernel/buddy.c:242-245 | the block goes to its place; no other block, flag or order changes |
| `Buddy.BuddySystem.FreeFirst` | kernel/buddy.c:201-213 | one turn of the loop before the head either finishes coalescing or merges once |
| `Buddy.BuddySystem.FreeAfter` | kernel/buddy.c:236-245 | past an entry that is not the sibling, the block merges with the next entry or goes between the two |
| `Buddy.BuddySystem.FreePastHead` | kernel/buddy.c:215-246 | one turn of the loop past the head either finishes coalescing or merges once, disturbing no live block |
| `Buddy.BuddySystem.FreeStep` | kernel/buddy.c:198-247 | one turn of the loop either finishes coalescing or merges once |
| `Buddy.BuddySystem.FreeLoop` | kernel/buddy.c:197-247 | the loop ends, and what it leaves free is the maximal coalescing of the old free blocks with the freed one |
| `Buddy.BuddySystem.FreeIndex` | kernel/buddy.c:192-249 | buddy_free_index of a live block makes the freeing step of a run; inside a live block it coalesces the pages of the stale record all the same |
| `Buddy.BuddySystem.CheckUsed` | kernel/buddy.c:98-110 | the consistency check lets a free go on exactly when all pages of the record of the page are in live blocks, for every managed page, and panics exactly when two of them differ or none is in use |
| `Buddy.BuddySystem.BuddyFree` | kernel/buddy.c:253-263 | buddy_free of any managed page: on a live block one step of a run; a panic exactly when the flags disagree or the page is not in use, and then nothing changes; only the orders of the record and of listed blocks below it change; inside a live block it goes through exactly when the stale record spans live pages only, which are then free and live |
| `Buddy.StartFree` | kernel/buddy.c:192-249 | a record that spans live pages only is apart from every free block, so freeing it keeps the lists sound among themselves |
| `Buddy.FreeInsideLiveBlock` | kernel/buddy.c:253-263 | a concrete run over four pages after which buddy_free of page 1, inside a live block, goes through |
| `Buddy.BuddySystem.SetAdat` | kernel/buddy.c:274-291 | afterwards every address of the block reads the owner data, and every other managed address what it read before |
| `PageEntry.EntryRoundTrip` | kernel/pg.h:30-61 | address and flags come back from an entry, for every address and ten flag bits |
| `PageEntry.WideFlagsCorrupt` | kernel/pg.h:30-61 | flags wider than ten bits do not come back |
| `PageEntry.LeafEntryIsLeaf` | kernel/pg.h:34-61 | entries made from leaf flags are leaves for the kernel |
| `PageEntry.TableEntryIsTable` | kernel/pg.h:36-48 | entries made for tables are tables for the kernel and give their address back |
| `PageEntry.IndicesArePageNumber` | kernel/pte.h:17-20 | the three nine-bit indices of an address are the digits of its 27-bit page number |
| `PageEntry.SameAddressIff` | kernel/pg.h:30-52 | kernel and hardware read the same address from an entry exactly when bits 61 to 54 are clear |
| `PageEntry.PhysicalFits` | kernel/pg.h:30-52 | entries made from 56-bit addresses keep those bits clear |
| `Words.NextFrame` | kernel/pte.c:108-117 | adding 4096 to a 64-bit address goes to the page with the next number, below the last one |
| `Words.AlignedValue` | kernel/utils.h:43 | rounding a 64-bit address down to its page is division by 4096, as numbers |
| `PageTree.StoreKeepsWF` | kernel/pte.c:18-106 | storing a leaf or zero keeps the tree well formed: tables distinct, page-sized, entries zero, tables or leaves |
| `PageTree.StoreLookup` | kernel/pte.c:18-106 | storing one entry changes exactly the translations of the pages it covers |
| `PageTree.LinkKeepsWF` | kernel/pte.c:42-62 | linking a fresh zeroed table keeps the tree well formed |
| `PageTree.LinkLookup` | kernel/pte.c:42-62 | linking a fresh zeroed table changes no translation |
| `PageMap.MapRefines` | kernel/pte.c:18-106 | pte_map refines insertion: on success exactly the pages of the region get the new leaf, and the tree gains exactly the pages it took |
| `PageMap.MapPanicsIff` | kernel/pte.c:18-106 | pte_map panics exactly when the size is unknown, a page of the region is mapped, or a table is in the way |
| `PageMap.UnmapRefines` | kernel/pte.c:120-157 | pte_unmap refines deletion of the whole leaf that covers the page, and fails exactly when there is none |
| `PageMap.UnmapUndoesMap` | kernel/pte.c:18-157 | unmapping what was just mapped restores the earlier translation of every page |
| `PageMap.EmptyTableBlocksSuperpage` | kernel/pte.c:72-81 | the empty table that unmapping leaves behind still makes pte_map of a superpage panic, though nothing is mapped there |
| `Sv39.HardwareAgrees` | kernel/pte.c:170-207 | the translation of section 4.3.2 of the RISC-V privileged specification over the same tables gives the leaf of the map on every canonical 64-bit address, faulting exactly where the page is unmapped, or the leaf is writable but not readable, or a superpage base is misaligned, with the reserved bits of leaves and of pointers to tables checked; it faults on every other address (section 4.4.1) |
| `Sv39.WalkRightIff` | kernel/pte.c:170-207 | pte_walk, which ignores bits 63 to 39, is right about the hardware exactly on canonical addresses and those whose translation would fault anyhow |
| `Sv39.HighBitsIgnored` | kernel/pte.c:170-207 | a concrete address on which they differ |
| `Sv39.MapPhysical` | kernel/pte.c:18-106 | mapping 56-bit addresses through tables at 56-bit addresses keeps every reserved bit clear, so the agreement stays |
| `Sv39.UnmapPhysical` | kernel/pte.c:120-157 | unmapping keeps every reserved bit clear |
| `Sv39.RunAgrees` | kernel/pte.c:18-157 | after any run of maps and unmaps of 56-bit addresses the hardware translates as the finite map that the operations build |
| `PageTable.MapKeepsNoStrays` | kernel/pte.c:18-106 | after pte_map the memory holds the tables of the tree and no others |
| `PageTable.MapConserves` | kernel/pte.c:42-62 | what pte_map adds to the tree it takes from the pool |
| `PageTable.PageTables.constructor` | kernel/pte.c:10-16 | pte_create gives a tree that maps nothing |
| `PageTable.PageTables.PteMap` | kernel/pte.c:18-106 | pte_map in place does what the value-level operation does, taking pages in the order the code takes them, or panics and changes nothing |
| `PageTable.PageTables.PteUnmap` | kernel/pte.c:120-157 | pte_unmap in place does what the value-level operation does, or panics and changes nothing |
| `PageTable.PageTables.PteWalk` | kernel/pte.c:170-207 | pte_walk gives V = 0 exactly on unmapped pages, and elsewhere the base, flags and size of the leaf |
| `PageTable.PageTables.PteDestroy` | kernel/pte.c:209-225 | pte_destory gives back exactly the pages of the tree, each once |
| `PageTable.PageTables.MapPage` | kernel/pte.c:18-71 | one 4 KiB pte_map adds one page to those mapped since a given state; it panics exactly when the page is mapped |
| `PageRange.RangeMap` | kernel/pte.c:108-117 | pte_range_map maps every page of the range, in order, and changes nothing else; for page-aligned va and pa, byte off of the range at va is byte off at pa, with 4 KiB leaves of the flags given, while pa + off is below 2^64; it panics exactly when a page of the range was mapped or comes twice |
| `PageRange.ReachedByHardware` | kernel/pte.c:108-117 | the hardware translates such an address to that physical address, as numbers |
| `PageRange.RangeUnmap` | kernel/pte.c:159-169 | pte_range_unmap removes exactly the leaves that the pages of the range are in, of any size, and panics exactly when a page is not mapped or is in the leaf of an earlier one |
| `PageRange.RangeAloneIffSmall` | kernel/pte.c:159-169 | without a panic, nothing outside the range loses its translation exactly when all its pages were mapped by 4 KiB leaves |
| `PageRange.RangeUnmapUndoesMap` | kernel/pte.c:108-169 | unmapping a range that was just mapped does not panic and restores the earlier translation of every page |
| `PageRuns.StepKeeps` | kernel/pte.c:18-157 | every step keeps the tree well formed, and tables plus pool are the same pages |
| `PageRuns.TreeHoldsPagesTaken` | kernel/pte.c:10-62 | after any run the tree holds exactly the pages taken from the allocator since pte_create |
| `PageRuns.RunRefinesMap` | kernel/pte.c:18-157 | after any run of maps and unmaps the tree stands for the finite map that the operations build |
| `PageRuns.MappedPagesAreNotTables` | kernel/pte.c:209-225 | pte_destory frees no page anywhere in a mapped leaf of any size, provided no leaf was mapped with a page of the allocator in it |
| `ListHead.Links.Init` | kernel/list.h:9-12 | a node alone is an empty list; no other pointer changes |
| `ListHead.Links.Add` | kernel/list.h:14-23 | list_add puts the node first; only pointers of the list and the node change |
| `ListHead.Links.AddTail` | kernel/list.h:25-27 | list_add_tail puts the node last |
| `ListHead.Links.Del` | kernel/list.h:29-36 | list_del takes the element out and keeps the order of the others |
| `ListHead.Links.DelInit` | kernel/list.h:38-41 | list_del_init takes the element out and leaves it an empty list of its own |
| `ListHead.Links.Replace` | kernel/list.h:43-49 | list_replace puts the new node in the place of the old one, also of the head, also when it is alone |
| `ListHead.Links.IsEmpty` | kernel/list.h:51-53 | list_is_empty says whether the list has no element |
| `ListHead.Links.ForEach` | kernel/list.h:55-56 | list_for_each visits the elements in order, each once, and ends |
| `ListHead.OtherRing` | kernel/list.h:14-36 | lists that share no node do not disturb each other |
| `Recency.AccessKeepsLastN` | kernel/fat32.c:45-48 | the last n distinct sectors by access after one more access |
| `Recency.ResidentIff` | kernel/fat32.c:45-79 | a sector is among the last n exactly when it was accessed and fewer than n distinct sectors were accessed since |
| `CacheState.WriteBackKeeps` | kernel/fat32.c:51-54 | writing a buffer back keeps buffers coherent and the logical contents |
| `CacheState.DropKeeps` | kernel/fat32.c:58-65 | dropping a clean buffer loses nothing and unbuffers only its sector |
| `CacheState.FillKeeps` | kernel/fat32.c:73-76 | filling an invalid buffer with an unbuffered sector keeps the logical contents |
| `CacheState.ModifyWrites` | kernel/fat32.c:106-110 | storing into a buffer changes exactly that sector of the logical contents |
| `CacheState.CleanMeansOnDisk` | kernel/fat32.c:81-87 | with no dirty buffer the disk is the logical contents |
| `CacheState.TouchHit` | kernel/fat32.c:89-98 | a hit moves the sector to the end of the order of last access |
| `CacheState.TouchMiss` | kernel/fat32.c:67-79 | a miss with a free buffer adds the sector at the end of that order |
| `CacheState.TouchEvict` | kernel/fat32.c:41-43 | a miss without one evicts the sector accessed longest ago |
| `CacheState.BufferedIffRecent` | kernel/fat32.c:41-79 | over any trace a sector is buffered exactly when it was accessed and fewer distinct sectors than there are buffers were accessed since |
| `SectorCache.SectorBuffers.MatchBuffered` | kernel/fat32.c:21-28 | the index found holds the sector; none is found exactly when it is not buffered |
| `SectorCache.SectorBuffers.MatchUnbuffered` | kernel/fat32.c:30-37 | an invalid buffer, or none when all are valid |
| `SectorCache.SectorBuffers.RemoveBuffer` | kernel/fat32.c:58-65 | removing a buffer, written back when dirty, keeps the logical contents |
| `SectorCache.SectorBuffers.ListDel` | kernel/list.h:29-36 | the buffer leaves the ring of buf_lists under buf_seq, which stands for the order of access, and the others keep their order |
| `SectorCache.SectorBuffers.ListAddTail` | kernel/list.h:25-27 | the buffer becomes the last of that ring |
| `SectorCache.SectorBuffers.LowActivity` | kernel/fat32.c:41-43 | the buffer after the head of the ring is the one at the front of the order of access |
| `SectorCache.SectorBuffers.SetActivity` | kernel/fat32.c:45-48 | the buffer goes to the end of the order of access |
| `SectorCache.SectorBuffers.Fetch` | kernel/fat32.c:67-79 | fetching a sector buffers it, keeps the logical contents, and evicts the least recently accessed one when it must |
| `SectorCache.SectorBuffers.Access` | kernel/fat32.c:89-98 | an access buffers the sector and cannot otherwise be observed |
| `SectorCache.SectorBuffers.Read` | kernel/fat32.c:100-103 | a read returns what a plain array of sectors holds |
| `SectorCache.SectorBuffers.ReadCopy` | kernel/fat32.c:113-124 | a copying read returns the bytes of the plain array from the offset on, up to the end of the sector |
| `SectorCache.SectorBuffers.Write` | kernel/fat32.c:106-110 | the sector is in the buffer returned, which is dirty; contents do not change yet |
| `SectorCache.SectorBuffers.Poke` | kernel/fat32.c:106-110 | storing through the returned pointer changes those bytes of that sector only |
| `SectorCache.SectorBuffers.WriteCopy` | kernel/fat32.c:126-139 | a copying write changes exactly the bytes written, in that sector only |
| `Collections.OverlayAt` | kernel/fat32.c:126-139 | bytes stored at an offset are those from there on, and no other byte changes |
| `SectorCache.SectorBuffers.Flush` | kernel/fat32.c:81-87 | after a flush the disk equals the logical contents, which do not change |
| `SectorCache.SectorBuffers.Replay` | kernel/fat32.c:16-139 | any run of reads, writes and flushes returns what the same run on a plain array of sectors returns, and leaves what it leaves |
| `FatLayout.ClusterRoundTrip` | kernel/fat32.c:156-163 | cluster and sector numbers convert back and forth while no sector number overflows |
| `FatLayout.ChainUnique` | kernel/fat32.c:203-208 | a chain has one list of clusters |
| `FatFormat.NextIsEntry` | kernel/fat32.c:203-208 | the table entry of any cluster is the little-endian number in the four bytes at 4 times the cluster after the reserved sectors of the volume |
| `FatFormat.ReadsBoot` | kernel/fat32.c:618-656 | a boot sector laid out as the FAT specification has it is read back: sector size, cluster size, reserved sectors, root cluster, hidden sectors, and the data starts after the reserved sectors and all tables |
| `FatFormat.ClusterStart` | kernel/fat32.c:161-163 | the data of cluster c starts c - 2 clusters after the start of the data |
| `FatFormat.EndMarks` | kernel/fat32.c:568-591 | a chain ends exactly at the end marks of the FAT specification |
| `FatFormat.FileByteAt` | kernel/fat32.c:557-591 | byte o of sector j of the k-th cluster of a file is that byte of the volume |
| `FileData.IntendedReadsFile` | kernel/fat32.c:574-590 | with the offset reset after each sector, the loops copy exactly the bytes of the file from there on |
| `FileData.SafeAgrees` | kernel/fat32.c:577-588 | as written they copy the same for sector-aligned reads, reads within one sector, and reads that start in the last sector of a cluster |
| `FileData.ReadRightIffSafe` | kernel/fat32.c:577-588 | exactly those reads are right whatever the sectors contain |
| `FileData.SeekAt` | kernel/fat32.c:562-572 | the divisions find the cluster, sector and byte of the seek position |
| `FileData.SafeReadIsSlice` | kernel/fat32.c:557-591 | a safe read from a position is the slice of the concatenated clusters from the seek on |
| `FatVolume.Volume.ReadSector` | kernel/fat32.c:100-103 | reading a sector through the buffers gives the sector of the plain array and changes nothing |
| `FatVolume.Volume.GetChain` | kernel/fat32.c:203-208 | the table entry of the cluster |
| `FatVolume.Volume.SkipClusters` | kernel/fat32.c:569-572 | the loop arrives at the cluster of that number in the chain |
| `FatVolume.Volume.ReadCluster` | kernel/fat32.c:577-585 | the sector loop advances the read by one cluster |
| `FatVolume.Volume.ReadOn` | kernel/fat32.c:574-590 | the cluster loop copies what the two loops are specified to copy, and ends with the chain or the buffer |
| `FatVolume.Volume.Read` | kernel/fat32.c:557-591 | fat32_read copies nothing past the file size; elsewhere what the loops as written copy, which for safe seeks is the bytes of the chain from seek on, at most buf_len of them |
| `FatVolume.Mount` | kernel/fat32.c:599-698 | the volume has the geometry in the boot sector, no sector is buffered, and its contents are those of the disk from the hidden sectors on; there are as many buffers as fit in two pages |
| `Directory.SlotsAreBytes` | kernel/fat32.c:233-237 | the entries of a directory are its bytes cut every 32 bytes, across sectors and clusters |
| `Directory.TrackFree` | kernel/fat32.c:238-252 | a free entry extends the current run; at the wanted length the run is the first of that length |
| `Directory.ScanResumes` | kernel/fat32.c:350-482 | stopping at an object and starting afresh after it finds what going on would find |
| `Directory.ObjectsAreEntries` | kernel/fat32.c:384-474 | an uninterrupted scan finds every file and directory entry once, in order, with its cluster, size and short name |
| `Directory.ScanNames` | kernel/fat32.c:384-437 | the next object is the next file or directory entry, named by the long-name entries that precede it with only free or long-name entries between |
| `DirFormat.KindIs` | kernel/fat32.c:371-428 | an entry is free by its first byte, or else, for all attributes, a piece of a long name, a file, a directory, or neither, as the FAT specification says |
| `DirFormat.LongNameFound` | kernel/fat32.c:350-437 | a file or directory whose name of up to 255 characters is cut into long-name entries as the FAT specification has it is the next object found, with that name and the cluster and size of its entry; from 131 characters on the name stack overflows |
| `DirFormat.Unterminated` | kernel/fat32.c:294-323 | a piece that is padded without a terminator is read past its end |
| `DirFormat.PlainDirFound` | kernel/fat32.c:426-463 | a directory without long-name entries: "." and ".." are named so, and a ".." at cluster 0 is the root directory |
| `DirFormat.ReadsShort` | kernel/fat32.c:400-401 | kind, cluster and size of an 8.3 entry are read back |
| `DirFormat.ShortRightIff` | kernel/fat32.c:268-291 | the short name is BASE.EXT, or BASE without an extension, exactly when the base has more than five characters just in case there is an extension |
| `DirFormat.ExtensionLost` | kernel/fat32.c:275-278 | A.TXT is named A |
| `DirectoryScan.SearchEntry` | kernel/fat32.c:238-255 | one entry of the search |
| `DirectoryScan.SearchSector` | kernel/fat32.c:236-256 | the byte loop searches one sector |
| `DirectoryScan.SearchCluster` | kernel/fat32.c:233-257 | the sector loop searches one cluster |
| `DirectoryScan.SearchInDir` | kernel/fat32.c:223-262 | the position returned is the start of the first run of num free entries of the flattened directory; false exactly when there is none or num is 0 |
| `DirectoryScan.IterEntry` | kernel/fat32.c:371-474 | one entry of the iterator |
| `DirectoryScan.IterSector` | kernel/fat32.c:368-476 | the byte loop of the iterator |
| `DirectoryScan.IterCluster` | kernel/fat32.c:367-477 | the sector loop of the iterator |
| `DirectoryScan.NextPosition` | kernel/fat32.c:416-463 | the arithmetic on offsets leaves the iterator right after the object; at line 462 as written by cluster number |
| `DirectoryScan.IterNext` | kernel/fat32.c:350-482 | one call yields the next object of the scan, or ends exactly when there is none |
| `DirectoryScan.StandsIffResumesRight` | kernel/fat32.c:459-463 | as written the iterator is left in the chain exactly when the object is a file, or not in the last entry of its cluster, or the chain goes on with the next cluster number; as intended always |
| `DirectoryScan.AheadAfter` | kernel/fat32.c:416-424 | right after the object, exactly the entries not yet used are ahead |
| `DirectoryScan.ResumesIffPlaced` | kernel/fat32.c:459-463 | as written, the call that finds a directory resumes right exactly when the next entry is in the same cluster or in the one with the next number |
| `Directory.CallsRightIff` | kernel/fat32.c:343-482 | when no call faults, every call of a listing resumes right exactly when every directory of the directory is placed so |
| `DirectoryScan.ListAll` | kernel/fat32.c:343-482 | repeated calls list what one uninterrupted scan finds, then false: as intended on every volume, as written where every call resumes right |
| `StrayVolume.DirectoryHidesFile` | kernel/fat32.c:459-463 | a concrete disk whose root directory has a subdirectory in the last entry of a cluster and then a file: the iterator is left in cluster 3, outside the chain, where nothing is ahead |
| `StrayVolume.ListRoot` | kernel/fat32.c:350-482 | two calls on that volume as written: the subdirectory, then the end, without the file |
| `StrayVolume.MountAndList` | kernel/fat32.c:350-482 | the same from the bytes of the disk: it is mounted, and its root directory is listed without the file |
| `Spinlock.StepKeeps` | kernel/spinlock.c:18-80 | every load, swap and store by any hart keeps the invariant |
| `Spinlock.MutualExclusion` | kernel/spinlock.c:18-70 | in every interleaving at most one hart is between acquire and release |
| `Spinlock.CpuIdHolds` | kernel/spinlock.c:40-50 | cpu_id names a hart only while it holds the lock |
| `Spinlock.HoldingIsExact` | kernel/spinlock.c:74-80 | in every interleaving spinlock_holding answers whether its caller is inside; acquire panics exactly inside, release exactly outside |
| `Spinlock.StepRefines` | kernel/spinlock.c:18-70 | the lock refines one owner variable: only the swap that finds it free takes it, and only the releasing store frees it |
| `Spinlock.ReleaseGivesBack` | kernel/spinlock.c:45-70 | in every interleaving, a hart that calls release inside is outside after exactly five steps of its own, and not before; the last one leaves locked clear and cpu_id -1 |
| `Spinlock.AcquireTakes` | kernel/spinlock.c:18-42 | in every interleaving, acquire called outside stands at its swap, or has won it, after three steps of its own; a swap that finds the lock taken changes nothing, and one that finds it free ends inside after one more step, with cpu_id the number of the hart |
| `Spinlock.OtherCalls` | kernel/spinlock.c:18-80 | in every interleaving, after three steps of its own, acquire inside and release outside have panicked, no other call has, and spinlock_holding has answered right |
| `Slab.SlotInBlock` | kernel/slab.c:14-32 | a slot starts inside the block exactly for the numbers the threading loop lists, and ends inside it exactly for the objects counted |
| `Slab.SlotsDisjoint` | kernel/slab.c:14-32 | distinct slots share no word |
| `Slab.HeadIsObject` | kernel/slab.c:60-69 | the tail slot is never at the head while an object is free, and is all that is left when none is |
| `Slab.InsertThreads` | kernel/slab.c:72-92 | storing the two next pointers threads the freed slot into its place |
| `Slab.Slab.constructor` | kernel/slab.c:14-32 | slab_create_ex leaves every object free, the list possibly one slot longer than the count |
| `Slab.Slab.Thread` | kernel/slab.c:22-31 | the threading loop links exactly the slots that start in the block, in order |
| `Slab.Slab.Alloc` | kernel/slab.c:60-69 | NULL exactly when every object is live; otherwise the free object of lowest address, wholly inside the block, and nothing else changes |
| `Slab.Slab.FindPlace` | kernel/slab.c:81-87 | the search stops between the free slots below and above the object |
| `Slab.Slab.Free` | kernel/slab.c:72-92 | freeing a live object makes it free and changes no word of another live object |
| `Slab.Slab.UserWrite` | kernel/slab.c:60-92 | no store into a live object disturbs the slab |
| `Slab.Slab.Counters` | kernel/slab.c:94-107 | the counters say how many objects are live: empty and full mean what they say |
| `Kmem.MovedKeeps` | kernel/kmem.c:43-126 | moving a slab to the list of its new kind keeps every list of every cache right |
| `Kmem.KindIs` | kernel/slab.c:94-107 | the counters of a child slab tell whether it is full, empty or neither |
| `Kmem.PmemAlloc` | kernel/pmem.c:18-21 | a new live block that was not live; refused exactly when no list of the order or more has a block, and then nothing changes |
| `Kmem.PmemFree` | kernel/pmem.c:23-25 | the live block is gone and no other |
| `Kmem.SlabAlloc` | kernel/slab.c:60-69 | the lowest free object of the slab becomes live, and the slab is full or partial by its counters |
| `Kmem.KmemChain.TakeFrom` | kernel/kmem.c:46-65 | the lowest free object of the slab is handed out, in its block, and the slab is on the list of its kind |
| `Kmem.KmemChain.SlabCreate` | kernel/slab.c:40-53 | a new slab is a new live block whose two pages name the cache; it fails exactly when no record is free or no list can serve two pages, and then gives the record back |
| `Kmem.KmemChain.FromNew` | kernel/kmem.c:66-81 | a new slab with one object handed out joins the list of its kind; it fails exactly when slab_create does |
| `Kmem.KmemChain.CacheAlloc` | kernel/kmem.c:43-84 | one more object of the cache is live exactly when the cache has a slab that is not full or can get a new one; a slab in use serves before an empty one and that before a new one, and serves next while it is not full; otherwise nothing changes; no word in a slab changes, and slab records in use and free always add up |
| `Kmem.KmemChain.KmemAlloc` | kernel/kmem.c:145-173 | the smallest power of two from 8 to 2048 that fits serves the request exactly when it can; over 2048 bytes nothing does; no word in a slab changes |
| `Kmem.KmemChain.Search` | kernel/kmem.c:88-113 | the first slab of the list that contains the address, or none |
| `Kmem.KmemChain.GiveTo` | kernel/kmem.c:97-119 | the object is freed in its slab, in place, and the slab moves to the list of its new kind |
| `Kmem.KmemChain.CacheFree` | kernel/kmem.c:86-126 | a live object is always found, on the partial or the full list, and it alone is freed; a slab that was full serves next |
| `Kmem.KmemChain.KmemFree` | kernel/kmem.c:175-182 | the owner data of the page names the cache of a live object, which is freed without a panic; no word of another live object of any cache changes |
| `Kmem.KmemChain.UserStore` | kernel/slab.c:60-92 | no store into a live object of any cache disturbs the caches or the lists in their slabs |
| `Kmem.KmemChain.CacheShrink` | kernel/kmem.c:33-41 | every empty slab of the cache goes back, and no other |
| `Kmem.KmemChain.KmemShrink` | kernel/kmem.c:184-192 | every empty slab goes back to the buddy allocator and nothing else does; with no live object no slab is left |
| `Kmem.ObjectsDisjoint` | kernel/kmem.c:43-126 | live objects of all caches do not overlap |
| `Kmem.OwnerListed` | kernel/kmem.c:86-113 | the slab of a live object is on the partial or the full list of its cache, and no other slab there contains the address |
| `Kmem.OwnerPage` | kernel/kmem.c:175-178 | whichever page of its slab an object is in, that page names its cache |
| `Kmem.GivenFull` | kernel/kmem.c:114-119 | a full slab that loses an object is partial, never empty, since every slab has at least four objects |
| `Kmem.Classes` | kernel/kmem.h:8 | the size classes are the powers of two from 8 to 2048 |
| `Vfs.BoundOk` | kernel/vfs.c:22-28 | after a short backend read the buffer starts with all bytes of the block that the file has |
| `Vfs.ActivateKeeps` | kernel/vfs.c:43-46 | moving a block to the end keeps each block buffered at most once with the bytes of its file |
| `Vfs.FileCache.constructor` | kernel/vfs.c:143-173 | no block is buffered |
| `Vfs.FileCache.Check` | kernel/vfs.c:113-123 | the block found is the one asked for; none is found exactly when it is not buffered |
| `Vfs.FileCache.Borrow` | kernel/vfs.c:48-68 | a free block, a new one, or the block of which the last access in the history of all accesses is the longest ago |
| `Vfs.FileCache.Bind` | kernel/vfs.c:22-28 | the bound block holds the bytes of its file |
| `Vfs.FileCache.Unbuffer` | kernel/vfs.c:130-133 | the block is unbound and its buffer becomes the first free one |
| `Vfs.FileCache.UnbufferAll` | kernel/vfs.c:135-141 | no block of the node stays buffered, every other one does, and the buffers taken are free |
| `Vfs.FileCache.Access` | kernel/vfs.c:359-368 | the buffer of the block, which holds the bytes of its file; as written it fails exactly on a miss that would pop a list |
| `Vfs.FileCache.Read` | kernel/vfs.c:370-402 | vfs_read returns exactly the bytes of the file from offset on, cut off at buf_len or the size, whatever is or was buffered; as written it fails exactly when a block is missing and some block is free or there is no room for all missing ones |
| `Vfs.WantedAt` | kernel/vfs.c:370-402 | the bytes wanted are as many as fit the buffer and the file has, each the byte of the file at its offset |
| `BlockedReads.NoRoom` | kernel/vfs.c:62 | a concrete disk, mounted, and a file of two blocks over room for one: reading the file fails as written and returns it as intended |
| `BlockedReads.FreeBlocks` | kernel/vfs.c:52 | with room for two blocks the first read returns the file; after its blocks were unbuffered the second fails as written and returns the same as intended |
| `Loader.MapFlagsRight` | kernel/process.c:82-104 | the entry flags are zero exactly when nothing is asked for, and otherwise a user leaf with exactly the permissions asked for |
| `Loader.PageFilled` | kernel/process.c:240-247 | the copy fills the page with its file bytes and leaves the rest of it alone |
| `Loader.Task.AddPage` | kernel/process.c:335-361 | a fresh frame is mapped at the address; a panic exactly when the page is mapped already, a failure exactly when no frame is left |
| `Loader.Task.LoadPage` | kernel/process.c:234-248 | one page of a segment is mapped with its flags and filled; pages mapped before are kept |
| `Loader.Task.LoadSegment` | kernel/process.c:224-248 | exactly the pages of the segment are mapped and filled; every failure has its reason |
| `Loader.Task.LoadHeader` | kernel/process.c:206-250 | a header that is not loadable is skipped; a loadable one is loaded |
| `Loader.Task.LoadImage` | kernel/process.c:185-254 | every program header is processed once, in order, and the mappings are exactly the pages of the loadable segments; unless vfs_read faults or pages for tables run out, this happens exactly when headers and file allow it, there are frames enough, and the pages are distinct and unmapped |
| `Loader.ClashMeans` | kernel/process.c:335-361 | pte_map panics only on a page that was mapped before loading or belongs to two segments |
| `Loader.SegmentReads` | kernel/process.c:197-254 | every address of a loaded segment is mapped with its flags to a frame that is no page table, and reads as the byte of the file where the file has one, and elsewhere as the byte left in the frame |
| `Loader.RestZeroIff` | kernel/process.c:239-248 | a loaded segment reads as zeros past its file part exactly when its frames held zeros there |
| `UnclearedBytes.LoadAndRead` | kernel/process.c:239-248 | a concrete disk and program: the load succeeds, and byte 4 of an eight-byte segment with four file bytes reads as the 0xaa that the frame held |
| `Loader.PageRange` | kernel/process.c:224-234 | the page loop runs once for every page the segment touches |
| `ElfFormat.ReadsHeader` | kernel/process.c:197-207 | a program header laid out field after field as the System V ABI has it is read back: type, flags, offset, address, file size, memory size and alignment, for all values of 32 and 64 bits |
| `PageSupply.PageAddressFacts` | kernel/buddy.c:75-81 | the 64-bit address of a page is its number times 4096, so different pages have different addresses, all aligned |
| `PageSupply.TakePages` | kernel/pmem.c:18-21 | the words taken are, as numbers, the addresses that the allocator gives for different pages, each a live block of order 0 that was not live before |
| `PageSupply.Prepare` | kernel/process.c:335-345 | the pages of the page table and the frames of the process are different live blocks of order 0 of one allocator, so none is both; there is a process exactly when all pages for its tables could be had |

## Left out

- Hardware: everything under `driver/` and `hal/`; the disk is a reliable array of sectors, physical memory is the arrays of the models.
- Boot, traps, context switches, interrupts, the scheduler, consoles and logging.
- `kernel/bitmap.c` and `kernel/pid.c`: an allocated bit is never marked, so no allocation property holds.
- The lock calls inside the allocators and the file system, and the lock that early returns of `vfs_read` keep; the protocol itself is module `Spinlock`.
- Memory ordering of the spinlock: every access is atomic and takes effect at once.
- Interrupt counting in `cpu_int_push` and `cpu_int_pop`.
- Out-of-memory inside `pte_map`: a pool of at least two pages is required, and the loader stops when there is none.
- Permission checks and the setting of the A and D bits in the address translation.
- Writing files, making directories and searching for free clusters on FAT32: unfinished in the repository.
- The rewriting of short names for directories without long-name entries, and path lookup by name.
- Of fat32_init: start_sector is 0 and buf_order 1, as `kernel/filesystem.c:15` has them; running out of memory, the sector counts and the messages are not modelled.
- buddy_aux_data_init and the other readers of boot parameters: page counts are parameters.
- DirFormat.LongNameFound: names are of one-byte characters; of a two-byte one the code keeps the low byte.
- DirectoryScan.ListAll: as written it covers the listings in which every call resumes right; what is listed after a call that does not depends on the cluster it strays to, and may never end.
- Sector counts of 2^32 and more; sector and cluster numbers are taken not to overflow except in `FatLayout.Clu2Sec`.
- The counter of free entries for a search of zero entries, which could wrap only after 2^32 entries.
- The kmem_cache and slab_t records live outside their slabs; of pslab only the number of free records is kept.
- `kmem_free` of an address that is not a live object, which the code does not detect.
- `buddy_free` of a page whose record never belonged to a block, so that its order is whatever the memory held: the model stops (`Undefined`) where the code would use a record that is not aligned or reaches past the last page.
- The lists of blocks per file node in `kernel/vfs.c`: they are the used blocks of that node, so the order in which `vfs_unbuffer_all` frees their buffers is that of use.
- Folding directories, device files, and writing through `Vfs`.
- The ELF header checks, the stack and trap pages of a new process, and the clean-up after a failed load.
- Segments of memory size 0, or with a file size larger than the memory size: `Loader.Task.LoadImage` requires neither occurs among loadable headers.
- Addresses of segments are natural numbers: wrap-around at 2^64 is not modelled.
- The adat fields of the page records are an array of their own.
