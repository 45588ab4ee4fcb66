# pi-os: a verified model

pi-os is a small Rust kernel for the Raspberry Pi and for x86. This project models the parts of it that
carry state and arithmetic worth a proof, and proves what they promise:

- **Memory.** The buddy allocator with its free lists threaded through the memory it manages
  (`FreeLists`, `Blocks`, `BuddySystem`, `BuddyAllocator`), the heap and the page allocator on top of it
  (`HeapAllocator`, `PageAllocator`), and the division of physical memory at boot that feeds both
  (`BootLayout`).
- **FAT32.** The table codec, chains, allocation and extension on a disk of sectors, also as a system of
  concurrent runs, and files as byte sequences (`FatLayout`, `FatTable`, `FatChains`, `FatWalks`,
  `FatConcurrent`, `FatFiles`, `FatTraffic`, `Fat32`). Constants follow the Microsoft FAT32 File System Specification,
  section "FAT Data Structure".
- **x86 paging.** The two-level tables and a TLB that the hardware may fill at any moment (`PageTables`,
  `Mmu`), after the Intel SDM Volume 3A, sections 4.3 and 4.10.4.1.
- **Screens.** Bresenham lines and midpoint circles (`Lines`, `Circles`, `FrameBuffer`, `FilledCircles`), the
  overlap-safe rectangle copy (`CopyRegion`) and the scrolling text screen (`VgaText`).
- **Interrupts.** Nested dispatch (`IrqDispatch`).

Machine words are natural numbers; the bitwise operators are written out bit by bit in `Bits`, with lemmas
that say what the masks and shifts of the source mean. Where the source bounds a value by its word, the
model states the bound as a condition. Objects the source changes in place are classes with the source's
fields; each method is proved against a function of the old state, and the properties are then proved of
those functions as lemmas. A ghost field records what the memory means (the free lists as sequences, the
ledger of live payloads, the transcript behind a screen), and `Valid()` ties it to the stored words.

## How the results hang together

*Buddy allocator.* `AddToFreeList`, `RemoveSpecificFromFreeList` and the rest keep `Linked`: the head words
and `next` cells spell out one finite, duplicate-free list per order. `AllocBlockOrder` and `FreeBlock` are
then steps of a small system on sets of blocks. Its invariant (the blocks tile the region and no two free
buddies coexist) makes the free set a function of the free bytes alone, from which follow history
independence, the exact condition of failure, and that an allocation undone leaves no trace.

*FAT32.* `WriteFatEntry` is an update of one element of a sequence, whatever the sector geometry;
`ExtendFile` yields the old chain followed by clusters that were free; `Write` is a splice of a byte
sequence. `FatConcurrent` cuts `extend_file` at its lock sections and proves every interleaving of any
number of runs safe; `FatTraffic` adds the loads and stores of data sectors between them and shows that
each file has the bytes of its own writes. `FatWalks` says exactly on which disks `get_chain` ends.

*Paging.* The invariant that present table entries of the directory own distinct pool frames makes each
store change one page's translation, so `MapRegion` and `UnmapRegion` act as updates of a flat map, and the
page invalidated next is the only one whose cached copy can be stale.

*Down to the words.* Functions that both a method and its contract use are pinned by lemmas that name neither:
`SectorOnDisk` and `BytesWritten` give disk addresses and byte values, `TranslatedWords` the page walk in words,
`DividedExactly` every address of the boot layout, `ByteMeans`, `LinesPrinted` and `OnScreen` the cells of the text
screen, `LineCall`, `CircleCallsIff` and `SpanCallsIff` the fields of every drawing call.

The conditions of the lemmas are what the methods establish: `Init` starts the allocator's invariant and
every operation keeps it, `Write` ends in `Written`, `MapRegion` in `RangeMapped`, and `SetUp` calls the
initialisation of both allocators with the ranges of the boot layout.

*Where the code falls short of a promise*, the model follows the code and states the exact condition:

- `Acquire` and `ZeroedWhole`: half of an L1 table keeps what was there.
- `HeaderFoundIff`: `free` finds the header exactly for alignments up to 8; `MisfreedNeverValid` and
  `AlignedTo16` say what happens above.
- `PaintsExactlyIff`: where on and off the screen `fill_circle` comes out right, row by row. Spans that reach
  past the left edge wrap (`ForwardIff`, `WrappedSpan`), and spans to the right of the screen are clamped onto
  its last column (`ClampedSpan`, `JustOffScreen`). With `radius <= cx < width` all is well
  (`PaintsExactlyWhen`).
- `NotAlwaysOutermost` and `OutermostIff`: the circle loop may draw one pixel inside the outermost one, so what
  `fill_circle` fills is the set of offsets with `l^2 + (s+1)^2 - 1 <= r^2` for the longer leg `l` and the
  shorter one `s`, called the filled set below; it lies within the disc `l^2 + s^2 <= r^2` and can be smaller.
- `PagesFitIff`: with 10 to 4095 bytes left the page range is upside down. On x86 that takes a boot loader whose
  entries fill the region table, so that the standard RAM region and ISA window are dropped
  (`HundredBytesDoNotFit`); with these two present it cannot happen (`StandardPcFits`).
- `NoEntryCrossesIff`: the branch for an entry across two sectors is dead exactly when the sector size is a
  multiple of 4.
- `EndsIffNoLoop`: `get_chain` does not return on a cyclic table, and `SomeDiskLoops` gives one.

## Model

| member | source | states |
|---|---|---|
| Bits.RoundUpMeaning | kernel/src/mm/buddy_allocator.rs:64 | `(a + m - 1) & !(m - 1)` is the multiple of the power of two `m` in `[a, a + m)` |
| Blocks.Region.XorIsBuddy | kernel/src/mm/buddy_allocator.rs:240 | exclusive or with the block size, on an aligned address, is the other half of the enclosing block |
| Blocks.Region.ApartOrWithin | kernel/src/mm/buddy_allocator.rs:230-257 | naturally aligned blocks are apart or nested, never partially overlapping |
| Blocks.Region.SplitTile | kernel/src/mm/buddy_allocator.rs:204-209 | replacing a block by its halves keeps the region exactly covered |
| Blocks.Region.MergeTiles | kernel/src/mm/buddy_allocator.rs:238-252 | replacing two buddies by their parent keeps the region exactly covered |
| FreeLists.SpliceLinked | kernel/src/mm/buddy_allocator.rs:282-298 | redirecting the one pointer at a block past it, head or `next` cell, unlinks exactly that block from any position |
| BuddySystem.AllocKeepsInv | kernel/src/mm/buddy_allocator.rs:192-215 | allocation keeps the tiling by free and outstanding blocks and leaves no two free buddies |
| BuddySystem.FreeKeepsInv | kernel/src/mm/buddy_allocator.rs:230-257 | so does freeing with coalescing |
| BuddySystem.Container | kernel/src/mm/buddy_allocator.rs:230-257 | every wholly free aligned block lies in one free block: coalescing leaves no seam |
| BuddySystem.CanonicalForm | kernel/src/mm/buddy_allocator.rs:230-257 | a block is on a free list if and only if it is wholly free and, below MAX_ORDER, its parent is not |
| BuddySystem.HistoryIndependence | kernel/src/mm/buddy_allocator.rs:192-257 | states with the same free bytes, however reached, have the same free blocks |
| BuddySystem.FreeBytes | kernel/src/mm/buddy_allocator.rs:192-257 | a byte of the region is free if and only if no outstanding block has it |
| BuddySystem.SameLiveSameFree | kernel/src/mm/buddy_allocator.rs:192-257 | the outstanding blocks determine the free blocks |
| BuddySystem.FailsOnlyWhenFull | kernel/src/mm/buddy_allocator.rs:192-215 | for an order up to MAX_ORDER allocation fails if and only if no aligned run of that size is wholly free |
| BuddySystem.ServedFromFree | kernel/src/mm/buddy_allocator.rs:192-215 | an allocated block was wholly free, is aligned to its size and lies in the region |
| BuddySystem.TakesSmallest | kernel/src/mm/buddy_allocator.rs:192-215 | a served request takes a smallest free block that is large enough, at that block's address, and exactly the bytes handed out stop being free |
| BuddySystem.RunKeepsInv | kernel/src/mm/buddy_allocator.rs:192-257 | every state of every run of allocations and matching frees keeps tiling and canonical form |
| BuddySystem.RunTiles | kernel/src/mm/buddy_allocator.rs:192-257 | at every moment of a run each byte is in exactly one block, free or outstanding but not both |
| BuddySystem.RunForgetsHistory | kernel/src/mm/buddy_allocator.rs:63-97 | two moments of a run with the same outstanding blocks are the same state; freeing everything in any order restores what `init` built |
| BuddySystem.AllocThenFree | kernel/src/mm/buddy_allocator.rs:192-257 | allocation followed by the matching free is the identity |
| BuddyAllocators.BuddyAllocator.Init | kernel/src/mm/buddy_allocator.rs:63-97 | the range rounded inwards is tiled by free blocks in canonical form, linked into lists, nothing stored outside it |
| BuddyAllocators.BuddyAllocator.PlaceNext | kernel/src/mm/buddy_allocator.rs:75-95 | a round places the largest aligned block that fits; progress is made in every round |
| BuddyAllocators.BuddyAllocator.GreedyIsCoalesced | kernel/src/mm/buddy_allocator.rs:74-96 | greedy filling leaves no two free buddies |
| BuddyAllocators.BuddyAllocator.AddToFreeList | kernel/src/mm/buddy_allocator.rs:262-269 | the block joins the front of its list; only its own cell is stored to |
| BuddyAllocators.BuddyAllocator.RemoveFromFreeList | kernel/src/mm/buddy_allocator.rs:271-277 | the first block of the list is taken and no memory is stored to |
| BuddyAllocators.BuddyAllocator.RemoveSpecificFromFreeList | kernel/src/mm/buddy_allocator.rs:282-298 | ends, answers whether the block was free, removes it and no other, stores only into a block still on that list |
| BuddyAllocators.BuddyAllocator.SplitDown | kernel/src/mm/buddy_allocator.rs:204-209 | splitting frees exactly the right halves on the way down and stores into no outstanding block |
| BuddyAllocators.BuddyAllocator.AllocBlockOrder | kernel/src/mm/buddy_allocator.rs:192-215 | an allocation step; what is returned is the head of the first nonempty list from the order on; None exactly when the order is above 10 or no aligned run is wholly free; no store into an outstanding block |
| BuddyAllocators.BuddyAllocator.FreeBlock | kernel/src/mm/buddy_allocator.rs:230-257 | a free step for an outstanding block, nothing for an order that is too large; no store into an outstanding block |
| BuddyAllocators.Layout.HeaderRounded | kernel/src/mm/buddy_allocator.rs:112-114 | the header size rounded up to the larger of the alignment and 8 is that larger one |
| BuddyAllocators.Layout.PayloadFits | kernel/src/mm/buddy_allocator.rs:105-136 | behind the header, in a block large enough for both, the payload is aligned as requested |
| BuddyAllocators.BuddyAllocator.Alloc | kernel/src/mm/buddy_allocator.rs:105-136 | the payload is aligned, lies with its size in its block behind a header of max(alignment, 8) bytes, which holds the order; the block is the smallest that fits, and a refusal means every free block is too small |
| BuddyAllocators.BuddyAllocator.Free | kernel/src/mm/buddy_allocator.rs:144-157 | frees the block of the order found 8 bytes below the pointer; an order above MAX_ORDER found there, and null, do nothing |
| HeapAllocators.PayloadsApart | kernel/src/mm/heap_allocator.rs:43-51 | live payloads are disjoint, to the byte |
| HeapAllocators.HeaderFoundIff | kernel/src/mm/buddy_allocator.rs:144-157 | in every valid heap, the cell 8 below a live pointer and its address name an outstanding block, the payload's own, if and only if the alignment is at most 8 |
| HeapAllocators.MisfreedNeverValid | kernel/src/mm/buddy_allocator.rs:230-257 | above that alignment, if the stale cell reads as an order, no merge is found for the address freed and no state with it on a free list is valid |
| HeapAllocators.AlignedTo16 | kernel/src/mm/buddy_allocator.rs:105-136 | that case arises: an allocation aligned to 16 succeeds and `free` would not find its header |
| HeapAllocators.LedgerAdd | kernel/src/mm/heap_allocator.rs:43-51 | a new payload joins the others without changing what they hold |
| HeapAllocators.LedgerDrop | kernel/src/mm/heap_allocator.rs:53-60 | freeing one payload leaves the contents of the others |
| HeapAllocators.PayloadStore | kernel/src/mm/heap_allocator.rs:71-75 | a store into a payload changes that byte of that payload, no header and no other payload |
| HeapAllocators.HeapAllocator.Init | kernel/src/mm/heap_allocator.rs:26-39 | a heap without payloads inside the given range, nothing stored outside it |
| HeapAllocators.HeapAllocator.Alloc | kernel/src/mm/heap_allocator.rs:43-51 | one new payload of the layout asked for, in the smallest block that fits it, all other contents as before; zero size and failure change nothing, and failure means every free block is too small |
| HeapAllocators.HeapAllocator.Dealloc | kernel/src/mm/heap_allocator.rs:53-60 | exactly that payload goes if the alignment is at most 8; above it, when the stale cell holds no order, nothing changes and the block leaks |
| HeapAllocators.HeapAllocator.Realloc | kernel/src/mm/heap_allocator.rs:62-80 | on success each byte that both sizes have is that of the old payload, which is gone, or leaks as in Dealloc; failure means every free block is too small and leaves the old payload; others are unchanged |
| HeapAllocators.HeapAllocator.CopyPayload | kernel/src/mm/heap_allocator.rs:71-75 | the copy sets the first bytes of the new payload to those of the old and changes no other payload |
| PageAllocators.ZeroedWhole | kernel/src/mm/page_table.rs:120-132 | constructors clear as many bytes as their block has, except the L1 table's, which clears exactly half as many |
| PageAllocators.DropMatchesRequest | kernel/src/mm/page_table.rs:70-204 | each wrapper frees the block it was allocated as: one page for a page or L2 table, four for an L1 table, 2^ORDER for a page block |
| PageAllocators.HeldStepKeeps | kernel/src/mm/page_allocator.rs:68-103 | allocating and dropping wrappers keeps one wrapper per outstanding block |
| PageAllocators.HeldRunKeeps | kernel/src/mm/page_allocator.rs:68-103 | so does every run of them |
| PageAllocators.DroppingAllRestores | kernel/src/mm/page_table.rs:70-204 | a run that begins and ends with no wrapper alive ends with the free blocks it began with |
| PageAllocators.PageAllocator.Init | kernel/src/mm/page_allocator.rs:41-52 | no wrapper is alive; the allocator has the whole given range but for less than a page at either end, nothing stored outside it |
| PageAllocators.PageAllocator.Acquire | kernel/src/mm/page_allocator.rs:68-87 | the wrapper asked for, of a fresh block; its first bytes are zeroed and the rest of the block, which only an L1 table has, keeps what was there, so it is all zero if and only if that rest was; no store into memory that was outstanding |
| PageAllocators.PageAllocator.Release | kernel/src/mm/page_allocator.rs:95-102 | drop returns the wrapper's block and no other |
| BootLayout.GuardNeverFires | kernel/src/kcore/init.rs:219-226 | for every memory map and target the last guard cannot fail once the earlier assertions hold |
| BootLayout.DividedExactly | kernel/src/kcore/init.rs:117-270 | for every target, map and kernel end, which assertion fails, or every address of the layout: the first page after the kernel, the first aligned place for a table of 4 KB or 16 KB, a heap of a tenth of what is left, rounded down and at most 16 MB, and the pages up to the end of RAM or the peripherals |
| BootLayout.RangesDisjoint | kernel/src/kcore/init.rs:117-226 | table, heap and page range are in order, so disjoint, above the kernel, inside RAM and outside MMIO; the table is aligned to its size |
| BootLayout.PagesFitIff | kernel/src/kcore/init.rs:209-217 | the page range is not upside down if and only if the table ends in usable RAM and fewer than 10 or at least 4096 bytes remain |
| BootLayout.AlignedEndFits | kernel/src/kcore/init.rs:209-217 | with a page-aligned usable end that is so if and only if the table ends in usable RAM |
| BootLayout.StandardPcFits | kernel/src/boot/probe.rs:58-67 | with the standard RAM region and ISA window in the memory map, every x86 layout that passes its assertions leaves the page range the right way up, to the end of RAM |
| BootLayout.HundredBytesDoNotFit | kernel/src/kcore/init.rs:209-217 | on x86, with 64 boot-loader entries in the region table and none of the standard ones, 100 usable bytes behind the page directory pass every assertion and give a page range that ends before it starts |
| BootLayout.RangesAccepted | kernel/src/kcore/init.rs:228-231 | ordered ranges meet what both allocators' `init` needs |
| BootLayout.OutsideRegion | kernel/src/kcore/init.rs:228-231 | a buddy allocator stays valid whatever is stored outside its region |
| BootLayout.SetUp | kernel/src/kcore/init.rs:117-231 | afterwards the table is zero and both allocators are valid and have their ranges but for less than a block at either end; the heap's is a tenth of what is left, at most 16 MB; stores hit neither kernel nor MMIO |
| FatLayout.FatInfo.NoEntryCrossesIff | kernel/src/fs/fat/fat32.rs:456-486 | no entry crosses a sector boundary if and only if the sector size is a multiple of 4 |
| FatLayout.FatInfo.ClustersApart | kernel/src/fs/fat/fat32.rs:582-585 | different clusters, and different sectors of one, have different disk addresses |
| FatTable.EntryReadBack | kernel/src/fs/fat/fat32.rs:495-547 | after a write an entry reads as written and every other entry as before |
| FatTable.WriteEffect | kernel/src/fs/fat/fat32.rs:495-547 | a write updates the table at one place, keeps the copies alike and leaves the data area and the sectors before the table alone |
| FatTable.MirrorKept | kernel/src/fs/fat/fat32.rs:495-547 | the copies of the table stay identical |
| FatTable.RawWritten | kernel/src/fs/fat/fat32.rs:495-547 | every copy of the table holds exactly the four bytes written, nothing of the old entry is left |
| FatTable.BytesWritten | kernel/src/fs/fat/fat32.rs:495-547 | in sector numbers and byte values: the sector of every copy holds the word, least significant byte first |
| Fat32.Fat32Fs.ReadFatEntry | kernel/src/fs/fat/fat32.rs:456-486 | b0 + 0x100 b1 + 0x1_0000 b2 + 0x100_0000 (b3 % 16) of the four bytes at offset 4 * cluster of the table, or a read error beyond the disk |
| Fat32.Fat32Fs.WriteFatEntry | kernel/src/fs/fat/fat32.rs:495-547 | the table with that entry set to the value's low 28 bits; at offset 4 * cluster of every copy stand that word's four bytes, the least significant first, the top four bits cleared, not kept |
| Fat32.Fat32Fs.AllocCluster | kernel/src/fs/fat/fat32.rs:397-411 | the lowest free cluster from 2 to below total_clusters becomes an end of chain; DiskFull, nothing written, if and only if there is none |
| Fat32.Fat32Fs.LinkCluster | kernel/src/fs/fat/fat32.rs:414-424 | the last cluster leads to the new one, which ends the chain |
| FatChains.ChainUnique | kernel/src/fs/fat/fat32.rs:550-576 | a cluster starts at most one chain |
| FatChains.ChainAcyclic | kernel/src/fs/fat/fat32.rs:550-576 | a chain that ends visits no cluster twice |
| FatChains.ExtendByOne | kernel/src/fs/fat/fat32.rs:426-449 | one round of extension appends a cluster that was free and touches no other entry |
| FatChains.ExtensionSpares | kernel/src/fs/fat/fat32.rs:426-449 | chains disjoint from the extended one stay chains, disjoint from its new form too |
| Fat32.WalkFollowsChain | kernel/src/fs/fat/fat32.rs:550-576 | on a whole chain `get_chain` ends with exactly that path |
| Fat32.Fat32Fs.GetChain | kernel/src/fs/fat/fat32.rs:550-576 | the path, or the error found on the way, on any disk on which the walk ends |
| FatWalks.WalkEndsTrail | kernel/src/fs/fat/fat32.rs:550-576 | at the end of a trail of links an entry from 0x0FFF_FFF8 on gives that trail as the path, one below 2 InvalidCluster, one off the disk a read error |
| FatWalks.WalkLeavesTrail | kernel/src/fs/fat/fat32.rs:550-576 | from a start of at least 2 whose entry is on the disk every result of `get_chain` is one of these, and a path is exactly the trail of links followed |
| FatWalks.LoopNeverEnds | kernel/src/fs/fat/fat32.rs:550-576 | links that run back into themselves are followed for ever |
| FatWalks.EndsIffNoLoop | kernel/src/fs/fat/fat32.rs:550-576 | on any disk, corrupt or not, `get_chain` ends if and only if the links do not run into a loop |
| FatWalks.SelfLinkLoops | kernel/src/fs/fat/fat32.rs:550-576 | a cluster whose entry is written to name itself is a loop, on a disk sound in every other respect |
| FatWalks.SomeDiskLoops | kernel/src/fs/fat/fat32.rs:550-576 | there is such a disk |
| Fat32.Fat32Fs.ExtendFile | kernel/src/fs/fat/fat32.rs:426-449 | the chain becomes itself followed by clusters that were free, enough for the size and none that it does not need, or as many as there were when DiskFull |
| FatConcurrent.StepFootprint | kernel/src/fs/fat/fat32.rs:397-449 | a lock section writes only entries its run owns afterwards and acquires only free clusters |
| FatConcurrent.StepFreesNothing | kernel/src/fs/fat/fat32.rs:397-449 | no lock section frees a cluster, so a disk once full stays full |
| FatConcurrent.StepOk | kernel/src/fs/fat/fat32.rs:397-449 | a step keeps its own file's chain whole, the old chain followed by fresh clusters |
| FatConcurrent.StepKeepsInv | kernel/src/fs/fat/fat32.rs:397-449 | any step of any run keeps all chains whole and all runs apart, whatever the others are in the middle of |
| FatConcurrent.EveryInterleaving | kernel/src/fs/fat/fat32.rs:426-449 | in every interleaving of any number of runs, every file has an acyclic chain that extends its old one by fresh clusters, disjoint from all others; finished runs have the length asked for, or were told the disk is full, and it is |
| FatConcurrent.OtherFilesKept | kernel/src/fs/fat/fat32.rs:426-449 | files no run extends keep their chains |
| FatConcurrent.RunsAreBounded | kernel/src/fs/fat/fat32.rs:426-449 | no interleaving is longer than the runs have clusters to read and add |
| FatConcurrent.NeverStuck | kernel/src/fs/fat/fat32.rs:489-492 | an unfinished run can always take its next step |
| FatTraffic.StoreKeeps | kernel/src/fs/fat/fat32.rs:242-264 | completing a sector write, however long after the sector was loaded, overwrites that piece of its own file and no byte of another |
| FatTraffic.LockKeeps | kernel/src/fs/fat/fat32.rs:397-449 | a lock section changes no file's bytes; a cluster it links brings the bytes it had at the start |
| FatTraffic.WorldStepKeeps | kernel/src/fs/fat/fat32.rs:197-271 | any step of any file keeps every file's bytes those of its own writes |
| FatTraffic.EachFileItsOwn | kernel/src/fs/fat/fat32.rs:197-271 | in every interleaving of lock sections, sector loads and sector stores of any number of files, each byte of each file is what the last of its own completed writes there put in place, or else what was on the disk to begin with |
| FatFiles.ReadPiece | kernel/src/fs/fat/fat32.rs:176-191 | a piece of one sector is the same piece of the file |
| FatFiles.WritePiece | kernel/src/fs/fat/fat32.rs:236-264 | read, modify and write of one sector overwrites exactly that piece of the file |
| FatFiles.SectorOnDisk | kernel/src/fs/fat/fat32.rs:582-585 | sector s of the file's cluster number i is sector heapStart + (path[i] - 2) * sectorsPerCluster + s of the disk, byte for byte |
| FatFiles.ContiguousFile | kernel/src/fs/fat/fat32.rs:582-585 | a file whose clusters are 2, 3, 4, ... lies on the disk sector after sector from the start of the data area |
| FatFiles.WriteSparesOthers | kernel/src/fs/fat/fat32.rs:236-264 | it changes no byte of a file with disjoint clusters |
| FatFiles.DataWriteKeepsTable | kernel/src/fs/fat/fat32.rs:236-264 | it changes no table entry and keeps the copies alike |
| FatFiles.WriteIsSequenceWrite | kernel/src/fs/fat/fat32.rs:197-271 | overwriting at an offset up to the size is old prefix, data, old tail, in a file possibly grown |
| Fat32.Fat32File.New | kernel/src/fs/fat/fat32.rs:103-121 | refused if and only if the file has bytes but no start cluster |
| Fat32.Fat32File.Read | kernel/src/fs/fat/fat32.rs:136-195 | the buffer receives exactly the file's bytes from the offset, clipped to size and chain, and is otherwise unchanged |
| Fat32.Fat32File.Write | kernel/src/fs/fat/fat32.rs:197-271 | chain, bytes and size after a write, a failed one included, with no cluster more than the size needs; every other file, and the sectors before the table, as before |
| Fat32.Fat32File.WritePieces | kernel/src/fs/fat/fat32.rs:225-268 | the loop over sectors overwrites the file's bytes with the buffer, for every sector and cluster geometry |
| Fat32.Fat32File.Locate | kernel/src/fs/fat/fat32.rs:582-585 | the sector and place of a file's byte, found exactly within the chain: counted in bytes from the data area, (cluster - 2) clusters and the offset in the cluster |
| Fat32.WriteRefinesSequence | kernel/src/fs/fat/fat32.rs:197-271 | a successful write at offset up to size returns the full length and gives old[..offset] + buf + the old tail |
| Fat32.WriteBeyondEnd | kernel/src/fs/fat/fat32.rs:197-271 | past the end the old contents stay and the buffer is in place; the gap is left open |
| Fat32.OtherFilesUntouched | kernel/src/fs/fat/fat32.rs:197-271 | other files keep chain and bytes, after failed writes too |
| Fat32.Fat32File.WriteThenRead | kernel/src/fs/fat/fat32.rs:135-271 | a read of the same range after a successful write, through its own `get_chain`, returns the bytes written, at any offset |
| PageTables.FlagBits | kernel/src/arch/x86/mmu.rs:88-104 | the flag word says exactly WRITE, USER and DEVICE; READ, EXEC and CACHED leave no mark |
| PageTables.Tables.IndicesDistinct | kernel/src/arch/x86/mmu.rs:56-104 | different pages have different table entries, since directory entries own distinct frames |
| PageTables.Tables.SetEntry | kernel/src/arch/x86/mmu.rs:262-269 | a table store changes the translation of one page only, to what the entry says |
| PageTables.Tables.AddTable | kernel/src/arch/x86/mmu.rs:241-260 | hanging a fresh frame into the directory changes no translation |
| PageTables.Tables.LargeTranslation | kernel/src/arch/x86/mmu.rs:182-214 | under a 4 MB entry no page table has a say, which is why `map_region` needs ranges without them |
| PageTables.Tables.TranslatedWords | kernel/src/arch/x86/mmu.rs:25-42 | the whole translation of every address from the words of directory and pool: index bits, frame bits and flag bits as quotients and remainders |
| Mmu.RangeCovered | kernel/src/arch/x86/mmu.rs:226-229 | the pages gone over are exactly those with a byte of the range |
| Mmu.MissingIsCount | kernel/src/arch/x86/mmu.rs:241-260 | the tables a range needs are the directory words over it whose lowest bit is 0 |
| Mmu.X86Mmu.IndexSplit | kernel/src/arch/x86/mmu.rs:63-71 | the two indices are quotient and remainder of the page number |
| Mmu.X86Mmu.FindTable | kernel/src/arch/x86/mmu.rs:241-260 | finds or creates the table without changing a translation; fails if and only if it must create one and the pool is empty |
| Mmu.X86Mmu.MapPage | kernel/src/arch/x86/mmu.rs:234-270 | one page is mapped, every other translation stays, the TLB is coherent again |
| Mmu.X86Mmu.MapRegion | kernel/src/arch/x86/mmu.rs:223-272 | the walk changes on exactly the rounded range, to the physical range with the rights asked for; one of the 64 pool frames is used for each directory word of the range that is not present, and it succeeds if and only if there are as many; no cached translation is stale |
| Mmu.X86Mmu.MappedBytes | kernel/src/arch/x86/mmu.rs:223-272 | byte for byte, an address leads as far behind the physical start as it lies behind the virtual one |
| Mmu.X86Mmu.UnmapPage | kernel/src/arch/x86/mmu.rs:284-310 | the page, or the whole 4 MB page around it, faults; all else translates as before |
| Mmu.X86Mmu.UnmapRegion | kernel/src/arch/x86/mmu.rs:278-311 | no address in range translates, outside addresses change only within a 4 MB page met, no cached translation is stale |
| Mmu.X86Mmu.Init | kernel/src/arch/x86/mmu.rs:182-214 | the first 8 MB map to themselves, writable and for the kernel only |
| Mmu.X86Mmu.CoherentBut | kernel/src/arch/x86/mmu.rs:262-269 | a table store can leave stale only what is cached of its page, the one invalidated next |
| Mmu.X86Mmu.CoherentButLarge | kernel/src/arch/x86/mmu.rs:284-310 | clearing a 4 MB entry can leave stale only pieces of that page, which one invalidation drops |
| Lines.OnLineIsSteps | drivers/src/hal/fb.rs:56-85 | the loop's condition on a pixel is: nearest to the ideal line, ties rounded one way |
| Lines.NextPixel | drivers/src/hal/fb.rs:69-84 | the two tests on the error term choose the next nearest pixel and keep err = dx(j+1) - dy(i+1) |
| Lines.LineEnds | drivers/src/hal/fb.rs:56-85 | the line begins at the first point and ends at the second |
| Lines.LineConnected | drivers/src/hal/fb.rs:56-85 | neighbours touch: one step along the longer side, at most one along the other |
| Lines.LineHalfPixel | drivers/src/hal/fb.rs:56-85 | no pixel is further than half a pixel from the ideal line along the shorter side |
| Lines.NearestPixel | drivers/src/hal/fb.rs:56-85 | the k-th pixel is inside the box of the end points, k steps along the longer side, and nearest to the ideal line; midway a flat line takes the further pixel, a steep one the nearer |
| FrameBuffers.FrameBuffer.DrawLine | drivers/src/hal/fb.rs:56-85 | ends, and plots exactly the max(dx, dy) + 1 pixels of the line, in order |
| FrameBuffers.LineCall | drivers/src/hal/fb.rs:56-85 | the k-th call has the coordinates of the k-th pixel, which need no wrapping, and the color |
| Circles.OnArcUnique | drivers/src/hal/fb.rs:103-132 | each row has one pixel with -2x <= err <= 0 |
| Circles.ArcWithinCircle | drivers/src/hal/fb.rs:103-132 | x^2 + y^2 <= r^2 < (x+1)^2 + (y+1)^2 for every octant pixel |
| Circles.OutermostIff | drivers/src/hal/fb.rs:103-132 | the pixel is the outermost of its row if and only if r^2 - y^2 is within 2y above no perfect square |
| Circles.NotAlwaysOutermost | drivers/src/hal/fb.rs:103-132 | for radius 5 the loop draws (3, 3) in row 3 although (4, 3) is on the circle |
| Circles.NextRow | drivers/src/hal/fb.rs:117-131 | a round moves to the next row's pixel, keeping err = x^2 + (y+1)^2 - 1 - r^2, or the octant is over |
| Circles.OctantUnique | drivers/src/hal/fb.rs:103-132 | the octant is determined by the radius |
| Circles.OctantRows | drivers/src/hal/fb.rs:103-132 | row y is in the octant if and only if y^2 + (y+1)^2 <= r^2 + 1, and its pixel is the integer square root of r^2 + 1 - (y+1)^2 |
| Circles.SpannedIff | drivers/src/hal/fb.rs:135-160 | the spans of an octant cover an offset with longer leg l and shorter leg s if and only if l^2 + (s+1)^2 - 1 <= r^2 |
| FrameBuffers.FrameBuffer.DrawCircle | drivers/src/hal/fb.rs:103-132 | ends, and plots the octant of the radius and its mirror images, row by row |
| FrameBuffers.CirclePixelsIff | drivers/src/hal/fb.rs:113-122 | the pixels plotted are exactly those whose offsets are an octant pixel's up to signs and order, eight a row |
| FrameBuffers.CircleCallsIff | drivers/src/hal/fb.rs:113-122 | the calls carry exactly their coordinates, modulo 2^32, and the color |
| FrameBuffers.FrameBuffer.FillCircle | drivers/src/hal/fb.rs:135-160 | ends, and makes the calls for the spans between the mirror images of the same octant, with coordinates cast to u32 |
| FilledCircles.SpanCallsIff | drivers/src/hal/fb.rs:135-160 | the calls are exactly the spans between mirror images, field by field, with the color |
| FilledCircles.ForwardIff | drivers/src/hal/fb.rs:135-160 | every call of `fill_circle` has its start left of its end if and only if the radius is at most cx; otherwise the start wraps |
| FilledCircles.DrawnIff | drivers/src/hal/fb.rs:135-160 | under that condition the calls cover exactly the filled set, l^2 + (s+1)^2 - 1 <= r^2 |
| FilledCircles.SpansWithinCircle | drivers/src/hal/fb.rs:135-160 | under that condition no call covers a pixel outside the circle |
| FilledCircles.EveryRowFilled | drivers/src/hal/fb.rs:135-160 | under that condition every row within the radius has a call that covers its middle |
| FilledCircles.PaintsDiscIff | drivers/src/peripheral/bcm2835/framebuffer.rs:240-253 | with the centre on a screen of more than one column, exactly the on-screen pixels of the filled set are painted if and only if the radius is at most cx |
| FilledCircles.PaintsExactlyIff | drivers/src/peripheral/bcm2835/framebuffer.rs:240-253 | for every placement of centre, radius and screen, exactly the on-screen pixels of the filled set are painted if and only if each on-screen row meets an arithmetic condition: no clamp onto the last column outside the set, and a wrapped span made up for by one that ends at the left edge, in a row filled to the right edge |
| FilledCircles.PaintsExactlyWhen | drivers/src/peripheral/bcm2835/framebuffer.rs:240-253 | with the radius at most cx: always right if cx is on the screen, and otherwise if and only if the last column is in the filled set in each on-screen row of the circle |
| FilledCircles.JustOffScreen | drivers/src/peripheral/bcm2835/framebuffer.rs:240-253 | a circle of radius 5 about the first column past a screen of 100 by 100 comes out wrong |
| FilledCircles.WrappedSpan | drivers/src/peripheral/bcm2835/framebuffer.rs:240-253 | a circle of radius 5 about the left edge paints column 50 |
| FilledCircles.ClampedSpan | drivers/src/peripheral/bcm2835/framebuffer.rs:240-253 | a circle wholly right of the screen paints its last column |
| CopyRegion.Geometry.SourceFresh | drivers/src/peripheral/x86/mb2fb.rs:400-440 | in the order rows are copied, a source row is read before it is overwritten |
| CopyRegion.Geometry.RowsApart | drivers/src/peripheral/x86/mb2fb.rs:193-195 | rows of different height share no byte when the pitch is at least a row |
| CopyRegion.Geometry.OneMoreRow | drivers/src/peripheral/x86/mb2fb.rs:400-440 | one more row copied from original bytes |
| CopyRegion.Geometry.CopiedPixel | drivers/src/peripheral/x86/mb2fb.rs:400-440 | byte b of pixel (x, y), at y * pitch + x * bytesPerPixel + b, is in the destination what it was in the source |
| CopyRegion.Geometry.KeptByte | drivers/src/peripheral/x86/mb2fb.rs:400-440 | a byte outside the destination's stretch of each of its rows is as it was |
| CopyRegion.Mb2Fb.CopyRow | drivers/src/peripheral/x86/mb2fb.rs:400-440 | one row, to the byte, however the two overlap |
| CopyRegion.Mb2Fb.CopyRegion | drivers/src/peripheral/x86/mb2fb.rs:400-440 | for rectangles in bounds, however they overlap, the destination holds the source's original bytes and every byte outside it is unchanged |
| VgaText.ApplyKeeps | drivers/src/peripheral/x86/vga_text.rs:213-251 | every command keeps the cursor on the screen and, unless it clears, the rows that have scrolled off |
| VgaText.ScrolledRowsAreFinal | drivers/src/peripheral/x86/vga_text.rs:164-198 | over any commands without a clear the transcript only grows and rows above the screen never change |
| VgaText.ByteMeans | drivers/src/peripheral/x86/vga_text.rs:213-234 | for every byte where the cursor goes and which cell changes: 0x0A, 0x0D, 0x08 with and without a column to its left, and any other, from column 79 to column 0 of the next row |
| VgaText.BytesFill | drivers/src/peripheral/x86/vga_text.rs:180-234 | printable bytes of any number fill successive cells, row after row, with the current attribute |
| VgaText.LinesPrinted | drivers/src/peripheral/x86/vga_text.rs:189-234 | lines of fewer than 80 bytes, each ended by 0x0A, typed from column 0, stand one below the other from column 0; every other cell is as before or blank, and the cursor ends in column 0 below them |
| VgaText.VgaText.OnScreen | drivers/src/peripheral/x86/vga_text.rs:91-112 | the cell in column c of screen row r is bytes 160 r + 2 c and the next of the buffer, character and attribute |
| VgaText.VgaText.ScrollUp | drivers/src/peripheral/x86/vga_text.rs:164-177 | in place, every row becomes the one below it and the last becomes blank |
| VgaText.VgaText.Newline | drivers/src/peripheral/x86/vga_text.rs:189-198 | column 0 of the next row; on the last row the buffer's bytes move up by 160 and the last 160 become blank; the screen shows the last 25 rows of the transcript |
| VgaText.VgaText.AdvanceCursor | drivers/src/peripheral/x86/vga_text.rs:180-186 | one column on, from column 79 to column 0 of the next row; the screen shows the transcript |
| VgaText.VgaText.WriteByte | drivers/src/peripheral/x86/vga_text.rs:213-234 | for each kind of byte the cursor and the two bytes stored; the screen shows the transcript |
| VgaText.VgaText.Clear | drivers/src/peripheral/x86/vga_text.rs:236-245 | a new transcript of 25 blank rows in the current attribute, cursor at column 0 of row 0 |
| VgaText.VgaText.SetCursor | drivers/src/peripheral/x86/vga_text.rs:247-251 | the cursor at the place asked for, at most column 79 and row 24; no cell changes |
| VgaText.VgaText.Execute | drivers/src/peripheral/x86/vga_text.rs:213-251 | after any sequence of commands the buffer shows rows top..top+24 of the unbounded transcript |
| IrqDispatch.StepKeepsInv | kernel/src/irq/dispatch.rs:23-51 | every step, an interrupt arriving included, keeps exactly the lines of busy frames masked and active lines distinct |
| IrqDispatch.NoReentry | kernel/src/irq/dispatch.rs:23-51 | in every run no line is dispatched while it is being dispatched, and nesting is at most the number of lines |
| IrqDispatch.MasksRestored | kernel/src/irq/dispatch.rs:23-51 | when the stack empties the masks are what they were |
| IrqDispatch.MaskedAreActive | kernel/src/irq/dispatch.rs:23-51 | a line is masked if and only if a frame has masked it and not yet unmasked it |
| IrqDispatch.ResumesAsInterrupted | kernel/src/irq/dispatch.rs:23-51 | a return switches CPU interrupts on again, as they were |
| IrqDispatch.Unwinds | kernel/src/irq/dispatch.rs:53-69 | from every reachable state, without new interrupts, all frames return and the masks are restored |
| IrqDispatch.TakenFirst | kernel/src/irq/dispatch.rs:23-51 | what is taken of some arrivals: the first if its line is not masked, then what nests in it with that line masked, then what is taken of the rest |
| IrqDispatch.LoggedIff | kernel/src/irq/dispatch.rs:23-69 | a line is in the log if and only if it arrived or was found pending |
| IrqDispatch.Processor.Dispatch | kernel/src/irq/dispatch.rs:23-51 | with any nest of interrupts inside the handler, exactly those the masks let through are taken, in order, and the line ends unmasked with every other line and frame as before, by steps of the system |
| IrqDispatch.Processor.Interrupt | kernel/src/irq/dispatch.rs:23-51 | an interrupt and all that nest in it leave the interrupted state as it was; what nests is exactly what the masks let through |
| IrqDispatch.Processor.DispatchNext | kernel/src/irq/dispatch.rs:53-60 | the first pending line that is not masked is dispatched, and the result says whether there was one |
| IrqDispatch.Processor.Vector | kernel/src/irq/dispatch.rs:62-69 | a vector that polls from the start leaves the interrupted state as it was |
| IrqDispatch.Processor.DispatchAll | kernel/src/irq/dispatch.rs:53-69 | every pending line that is not masked is dispatched once, in order, and masks and frames end as they were, in a vector that has dispatched before or not |

## Left out

- The bytes of a word: a `next` pointer or block header occupies one cell at the block's base, and a cell holds any natural number.
- `block_size <<= 1` wrapping for sizes near the address limit: addresses and sizes are natural numbers.
- BuddyAllocators.BuddyAllocator.Init: asks for a positive rounded start, because null ends the lists, and one not behind the rounded end, where the source's subtraction underflows.
- BuddyAllocators.BuddyAllocator.Free: asks that the cell below the pointer is a live block's header or no order at all; for alignments above 8 with an order there, MisfreedNeverValid shows that the allocator does not survive.
- Panics: a second initialisation, a missing allocator and the allocation-error handler are conditions on the caller or a None, as are the spin locks and `OnceCell`.
- PageAllocators.PageAllocator.Acquire: the four allocation methods and constructors are one method with a request; `set_entry`, `get_entry` and the freed flag of debug builds are left out.
- HeapAllocators.HeapAllocator.Dealloc: asks the same of its pointer, through `Freeable`.
- BootLayout.SetUp: takes the kernel's end and the memory map as inputs, memory at least as large as the RAM, and the condition of PagesFitIff, without which the source's subtraction underflows.
- The block device: it fails only for addresses it does not have, so write errors do not occur on a disk that fits its table.
- FAT geometry: sectors are a multiple of 4 bytes, so the branch for an entry across two sectors is not modelled; `FatInfo::parse` and `mount` are replaced by the conditions of a sound volume, which they do not all check.
- Fat32.Fat32Fs.GetChain: asks for a disk on which the walk ends, which EndsIffNoLoop characterises; on others the source does not return.
- Fat32.Fat32Fs.ExtendFile: asks that the size computation stays below 2^32, and on a walk without error that the links stay inside the table.
- Fat32.WriteBeyondEnd: says nothing about the bytes between the old end and the offset, which the source does not clear.
- Directory parsing, lookup, `ls` and `stat`; create, delete, mkdir and rmdir, which the source does not implement; sizes in directory entries, which it never writes back.
- FatConcurrent.EveryInterleaving: one run per file, as one handle's `io_lock` gives; two handles on one file are left out.
- FatTraffic.EachFileItsOwn: each file makes one run of `extend_file` and then any number of sector writes; a file that needs no room ends its run after reading its chain.
- Mmu.X86Mmu.MapRegion: asks that no 4 MB page lies in range, which the source would take for a page table, that the rounded range ends within 4 GB and that the page count does not wrap; the panic of an empty pool is the result false.
- Access to tables by physical address, control registers, accessed and dirty bits, 36-bit pages and global pages.
- FrameBuffers.FrameBuffer.DrawLine: asks that twice the error term fits an i32; pixels are recorded as calls, and clipping and colour packing are left out.
- FilledCircles.PaintsExactlyIff: models the BCM2835 `draw_hline`; the other framebuffer agrees with it on spans whose start is left of their end, and underflows on the rest.
- CopyRegion.Mb2Fb.CopyRegion: memory is an array of bytes; volatile access is left out; both rectangles are asked to lie on the screen, which the source does not check.
- The hardware cursor of the text screen and its I/O ports.
- IrqDispatch.Processor.Dispatch: the controller reports only unmasked lines and knows every line it reports, and handlers leave it alone; the handler table and the trap frame are left out. That handlers may switch CPU interrupts is in the step system only.
- ARM section mapping, which is single-level and adds nothing to the x86 tables; the scheduler, whose ratios the code does not decide; `IrqMutex`; drivers that poll registers; the VFS, device and platform registries, loggers, assembly and linker scripts, which have easy properties only.
