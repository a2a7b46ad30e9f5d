# kernull in Dafny

A model of the stateful parts of the kernull kernel, with proofs over every input, run or reachable state.

- **Kernel heap** (`HeapSpec`, `HeapProofs`, `HeapRuns`, `HeapMemory`, `KernelHeap`, `SmallRequests`, `Words`, `Pages`): the
  first-fit allocator of `kernel/kmalloc.c`. `HeapSpec` describes the heap as a tiling of `[start, end)` by free
  blocks, live blocks and stranded page tails together with the free list; `KernelHeap.Allocator` runs the C code over
  the heap's bytes, headers and links in place, and is proved to compute that description.
- **Frames and page tables** (`PageEntries`, `Frames`, `FrameRuns`, `Paging`, `PageTree`, `AddressSpace`, `Mappings`,
  `HeapGrowth`, `HeapBacking`, `Boot`, `BootProofs`, `Startup`): the bitmap allocator of `arch/x86_64/mm/page_alloc.c`, the 4-level tables of
  `arch/x86_64/mm/mm.c` (section 4.5 of the Intel 64 and IA-32 Architectures Software Developer's Manual, Volume 3A)
  and `sbrk` on top of both; `HeapBacking` puts the byte heap on the mapped pages. Physical memory is a map from frame numbers to tables of 512 entries, as the direct map
  shows it; frames absent from the map hold zeros. An entry is its 40-bit address field and its other 24 bits.
- **Keyboard** (`Keyboard`, `KeyboardDriver`, `ScanTables`, `Decoder`, `Typing`, `KeyboardRuns`): the PS/2 command queue, its acknowledgement
  protocol and the scan code decoder of `kernel/ps2_keyboard.c`. A command and an interrupt are each one step.
- **Terminal, numerals, strings** (`Terminal`, `Itoa`, `Strings`): `arch/x86_64/vga_print.c`, `itoa` of
  `kernel/printk.c`, and `memmove`, `memcmp`, `strlen`, `strstr` of `kernel/string.c`.

`dafny verify dfyconfig.toml` checks the project.

## Where the code departs from its intent

The code is kept as written and the exact condition under which it does what it means to do is proved; where whole
runs depend on the intended line, the model has both versions and a parameter chooses.

- `kernel/kmalloc.c:80` counts the header into the first block's size. `HeapSpec.Line80` has both versions;
  `AsWrittenKeepsIff` shows the written one breaks the heap whenever the free list is empty, `AsWrittenOverlaps`
  gives two live blocks sharing bytes. Whole runs and `KernelHeap.Allocator` use the corrected line.
- `kernel/kmalloc.c:152-161` has no case for a block below the head: `ReleaseOrdersIff`, `ReleaseUndoesMallocIff`;
  `FreeBelowHeadReached` and `UndoFailsReached` are runs from the empty heap that get there.
- `kernel/kmalloc.c:174-185` overlaps two headers for requests under 8 bytes: `SplitIsRightIff`, `ZeroByteSplit`. A block
  that small has no room for the list link kfree puts in it: `MallocKeepsIff`.
- `arch/x86_64/mm/page_alloc.c:44` multiplies in 32 bits: `LimitAdmitsAllIff`; from 4 GiB on a frame is handed out twice,
  `AllocsDistinctAfterInitIff`, `FourGiBRepeats`.
- `arch/x86_64/mm/page_alloc.c:105-109` passes a frame number as an address: `FreedByNumberIff`, `FreeAccountsIff`; `FreedByNumberHandsOutReserved`
  is a run that gives reserved memory away.
- `arch/x86_64/mm/page_alloc.c:85` ends without a value when memory is full; the model answers `None`, and every
  failing exit above it is proved to mean that no frame is free.
- `arch/x86_64/mm/page_alloc.c:131` shifts by 1 instead of 3: `MetadataCoversIff`.
- `arch/x86_64/mm/mm.c:75` stores a byte address where frame numbers are read: `StoredIsRightIff`; `AddressSpace.Line75`
  has both versions. As written no heap page maps to its own frame, frame 0 being reserved (`GrowPage`); `sbrk` and all
  that stands on it (`HeapSpace.Sbrk`, `SbrkRun`, `HeapBacking`) use the corrected line.
- `arch/x86_64/mm/mm.c:65-67` does not clear a new table: `UnclearedTable`, `UnclearedPml3MapsGigabyte`. Runs assume free frames hold no present entry.
- `arch/x86_64/mm/mm.c:224` says 128 GiB, the loop maps 64 GiB; the model follows the loop.
- `arch/x86_64/mm/mm.c:236` uses the address of a parameter; the end address is an input of its own.
- `kernel/ps2_keyboard.c:196-208` mishandles Pause and drops the release flag of PrtSc: `DecodesAsIntendedIff`,
  `PauseLeavesStuck`. Line 80 of that file gives Page Down's key also to Page Up: `SameExtendedKeyIff`;
  line 59 has no keypad 4 and puts keypad 7 at a code no key sends: `KeypadFourAndSeven`.
- `kernel/ps2_keyboard.c:217` prints 0 for keys without a key code and for Escape: `PrintsZeroIff`.
- `kernel/ps2_keyboard.c:117-119` drops the scan-set query when only one slot is free: `QueryFollowsIff`.
- `kernel/printk.c:26-29` exchanges the terminator with the byte before the buffer: `Itoa`, `UnterminatedSeven`.
- `arch/x86_64/mm/mm.c:140-143` and `arch/x86_64/mm/mm.c:205-209` look through huge entries as if they named tables: `WalkersAgree`.
- `arch/x86_64/vga_print.c:19-22` sign-extends characters into the colour: `EntryKeepsColourIff`.

## Model

| member | source | states |
|---|---|---|
| HeapProofs.MallocKeepsIff | kernel/kmalloc.c:69-119 | kmalloc (line 80 corrected) keeps the regions a tiling of the heap, every block large enough for its header and link, every stranded tail under a page, and the list visiting each free block once, exactly when the request is for at least 8 bytes or gets a whole free block |
| HeapProofs.MallocServes | kernel/kmalloc.c:84-119 | for every request exactly one block becomes live, its recorded size is between the request and the request plus 16, and every other live block is the same |
| HeapProofs.MallocIsFirstFit | kernel/kmalloc.c:84-114 | the heap grows exactly when no free block fits; otherwise a free block is served, the lowest-addressed that fits when the list is ascending |
| HeapProofs.MallocRegions | kernel/kmalloc.c:77-119 | for every request the bytes taken, a free block's or the new pages', are the live block and what is cut off it: a rest of more than 16 bytes stays free, also when an empty list was refilled, and bytes are stranded exactly behind a block started because no free block fitted; every other region is the same |
| HeapProofs.MallocList | kernel/kmalloc.c:77-119 | from an empty list the list becomes the rest of the new pages, otherwise the rest takes the served block's place or it leaves the list, which stays the same when no block fitted |
| HeapProofs.MallocOrders | kernel/kmalloc.c:69-119 | every kmalloc keeps an ascending, fully coalesced list so |
| HeapProofs.AsWrittenKeepsIff | kernel/kmalloc.c:78-82 | with line 80 as written the free list must in addition be non-empty |
| HeapProofs.AsWrittenOverlaps | kernel/kmalloc.c:78-82 | as written, two requests from an empty heap end in two live blocks that share 8 bytes |
| HeapProofs.ReleaseKeeps | kernel/kmalloc.c:121-202 | kfree keeps the tiling and the list, in whatever order the list is |
| HeapProofs.ReleaseTakesOne | kernel/kmalloc.c:121-202 | exactly the freed block stops being live, the others are the same, and the heap keeps its end |
| HeapProofs.ReleaseExactly | kernel/kmalloc.c:121-202 | whatever the list's order, kfree leaves one free block out of the freed one and the neighbours of its slot that touch it, in their place in the list, and every other region as it was |
| HeapProofs.ReleaseOrdersIff | kernel/kmalloc.c:121-169 | kfree keeps an ordered, coalesced list so exactly when it has at most one block or the freed block lies above its head |
| HeapProofs.ReleaseBelowHead | kernel/kmalloc.c:152-161 | a block freed below the head of a longer list lands second, so the order is lost |
| HeapProofs.ReleaseUndoesMallocIff | kernel/kmalloc.c:84-188 | for every request size, kfree right after a kmalloc that did not grow the heap restores the whole heap exactly when kmalloc left at most one free block or a head below the block |
| HeapSpec.FirstFit | kernel/kmalloc.c:84-111 | the first list position whose block fits, all earlier ones being too small |
| Pages.RoundUp | kernel/kmalloc.c:38 | the least whole number of pages that covers the increment |
| HeapSpec.Position | kernel/kmalloc.c:152-158 | the insertion loop stops at the first block not below the freed one |
| HeapRuns.RunKeepsIff | kernel/kmalloc.c:69-202 | when callers free and write only blocks they hold, the heap is well-formed after every step of a run exactly when every request is one MallocKeepsIff admits |
| HeapRuns.RunOwnsEachByteOnce | kernel/kmalloc.c:69-202 | after any legal run from the empty heap each heap byte lies in exactly one free block, live block or stranded tail, and stranded tails are under 4096 bytes |
| HeapRuns.RunLiveIsHeld | kernel/kmalloc.c:69-202 | after any legal run the live blocks are exactly those returned and not yet freed |
| HeapRuns.RunOrdersIff | kernel/kmalloc.c:13-19 | the list is ascending with no two neighbours touching after every step of a run exactly when each of its frees meets the condition of ReleaseOrdersIff |
| HeapRuns.FreeBelowHeadReached | kernel/kmalloc.c:152-161 | three kmallocs of 100 bytes, the second block freed, then the first: the list ends up 4204, 4096, 4420 |
| HeapRuns.UndoFailsReached | kernel/kmalloc.c:152-161 | from a list 4204, 4420 a kmalloc of 50 bytes and the kfree right after it leave 4262, 4204, 4420 |
| HeapMemory.SplitWrites | kernel/kmalloc.c:172-188 | for requests of at least 8 bytes the stores of split_block leave both sizes, the old link in the remainder and none in the block, and touch nothing else |
| HeapMemory.CoalesceWrites | kernel/kmalloc.c:195-202 | the stores of coalesce_blocks leave the joint size and the right link in the left block and zeros in the right header, and touch only the two blocks |
| HeapMemory.PayloadIsCallers | kernel/kmalloc.c:13-19 | whatever a caller writes in a payload it holds, the bytes still represent the same heap and no other block changes |
| SmallRequests.SplitIsRightIff | kernel/kmalloc.c:172-188 | split_block leaves correct headers and link exactly for requests of at least 8 bytes, or where the overlapping bytes are zero |
| SmallRequests.ZeroByteSplit | kernel/kmalloc.c:172-188 | splitting 0 bytes off a 64-byte block leaves a wrong header |
| KernelHeap.Allocator.constructor | kernel/kmalloc.c:56-65 | the empty heap |
| KernelHeap.Allocator.Sbrk | kernel/kmalloc.c:35-54 | the heap's bytes grow by whole pages at the end, the old ones unchanged |
| KernelHeap.Allocator.SplitBlock | kernel/kmalloc.c:172-188 | splits in memory exactly when more than a block_t remains, and yields the next free block |
| KernelHeap.Allocator.FindFit | kernel/kmalloc.c:96-111 | the list walk in memory finds the first fitting block after the head and the block before it |
| KernelHeap.Allocator.Kmalloc | kernel/kmalloc.c:69-119 | the bytes afterwards represent the heap the description computes, the pointer is the served block's payload or NULL for a request over the bound, and no byte of any live block changes |
| KernelHeap.Allocator.NeedsPages | kernel/kmalloc.c:71-114 | the list walk in memory decides whether kmalloc is going to call sbrk |
| KernelHeap.Allocator.AreAdjacent | kernel/kmalloc.c:190-193 | decides whether a block ends where the next starts |
| KernelHeap.Allocator.CoalesceBlocks | kernel/kmalloc.c:195-202 | memory changes by those stores, represents the merged list, and no live block changes |
| KernelHeap.Allocator.FindSlot | kernel/kmalloc.c:152-158 | the list walk in memory stops at the described position |
| KernelHeap.Allocator.Kfree | kernel/kmalloc.c:121-169 | the bytes afterwards represent the heap the description computes, and no byte of any other live block changes |
| KernelHeap.Allocator.RunCalls | kernel/kmalloc.c:69-202 | a whole run of calls, with callers writing to their blocks in between, ends in the described heap; every live byte is what its owner last wrote there or what it was before, and a block the run does not free keeps its place and size |
| KernelHeap.UnwrittenKept | kernel/kmalloc.c:69-202 | in a block no operation frees, a byte no operation writes stays known through every run |
| KernelHeap.Allocator.Poke | kernel/kmalloc.c:13-19 | a caller's write behind the header of its block changes that byte alone and leaves the heap represented |
| PageEntries.MarkSets | arch/x86_64/mm/page_alloc.c:96-98 | an entry becomes present, never becomes huge, and loses no bit |
| PageEntries.MarkWrites | arch/x86_64/mm/page_alloc.c:96-98 | and is writable exactly when it was or when that was asked for |
| PageEntries.MarkSetsFlags | arch/x86_64/mm/mm.c:76-79 | besides the present bit exactly the admitted flags asked for are added |
| Frames.LimitAdmitsAllIff | arch/x86_64/mm/page_alloc.c:44 | the bound check admits every frame exactly when there are fewer than 2^20 |
| Frames.FrameAllocator.constructor | arch/x86_64/mm/page_alloc.c:22-39 | among the frames the scan sees, exactly those below the first free page plus the bitmap and within the bound check are marked, whatever the bitmap memory held; the two counters follow from that memory rounded up to pages |
| Frames.FrameAllocator.FrameSet | arch/x86_64/mm/page_alloc.c:42-50 | adds the address's frame to the set of used frames, or nothing past the bound |
| Frames.FrameAllocator.FrameClear | arch/x86_64/mm/page_alloc.c:53-61 | removes the address's frame from the set, or nothing past the bound |
| Frames.FrameAllocator.FrameTest | arch/x86_64/mm/page_alloc.c:64-72 | true exactly for used frames and addresses past the bound |
| Frames.FrameAllocator.FirstFreeFrame | arch/x86_64/mm/page_alloc.c:75-86 | the byte-skipping scan returns the least unused frame among whole bytes, and nothing exactly when all are used |
| Frames.FrameAllocator.PageAlloc | arch/x86_64/mm/page_alloc.c:88-101 | an empty entry gets the least free frame, present and with the flags, that frame is marked if the bound check admits it and the free frames are then one fewer; it fails exactly when no frame is free; an entry with an address is left alone |
| Frames.FrameAllocator.PageFree | arch/x86_64/mm/page_alloc.c:103-113 | the set, entry and counter afterwards, for the address as written and as meant |
| Frames.FreedByNumberIff | arch/x86_64/mm/page_alloc.c:103-113 | as written page_free releases its frame exactly when that is frame 0 and the bound is not zero, whatever the memory size |
| Frames.FreedByNumberLosesFrameZero | arch/x86_64/mm/page_alloc.c:103-113 | as written, freeing frame 1 marks frame 0 available |
| Frames.MetadataCoversIff | arch/x86_64/mm/page_alloc.c:128-134 | metadata_size covers the bitmap exactly when memory is not one single frame |
| FrameRuns.PerformAll | arch/x86_64/mm/page_alloc.c:88-113 | any sequence of page_alloc and page_free calls on the bitmap, the argument taken as written or as meant, leaves the marks and returns the frames of the run model |
| FrameRuns.RunAccounts | arch/x86_64/mm/page_alloc.c:88-113 | with page_free as meant and where the bound check admits every frame not reserved, over every run the marks are the reserved frames plus the live ones, which stay disjoint, and no reserved frame is handed out |
| FrameRuns.StepAccounts | arch/x86_64/mm/page_alloc.c:88-101 | in such runs no frame is handed out while someone holds it |
| FrameRuns.InitAndPerform | arch/x86_64/mm/page_alloc.c:22-113 | initialisation and then any legal run below 4 GiB: the marks are as accounted and no frame below the first free page plus the bitmap is ever handed out |
| FrameRuns.AllocsDistinctIff | arch/x86_64/mm/page_alloc.c:88-101 | frames handed out without a free in between stay pairwise distinct exactly when the bound check admits every unmarked frame the scan sees |
| FrameRuns.AllocsDistinctAfterInitIff | arch/x86_64/mm/page_alloc.c:42-101 | after initialisation that is the case exactly below 2^20 frames |
| FrameRuns.FourGiBRepeats | arch/x86_64/mm/page_alloc.c:42-101 | with 4 GiB initialisation marks nothing and two allocations both get frame 0 |
| FrameRuns.FreeAccountsIff | arch/x86_64/mm/page_alloc.c:103-113 | with page_free as written that account survives a free exactly when the frame is an admitted frame 0 |
| FrameRuns.FreedByNumberHandsOutReserved | arch/x86_64/mm/page_alloc.c:88-113 | as written, allocating and freeing frame 1 makes the next allocation hand out the reserved frame 0 |
| FrameRuns.LeastFreeIs | arch/x86_64/mm/page_alloc.c:75-86 | the run model's choice of frame is the one the bitmap scan returns, and none where the scan has none |
| Paging.TranslateIsWalk | arch/x86_64/mm/mm.c:91-122 | mmu_translate_via gives, for every memory and address, what a level-by-level walk ends in |
| Paging.LargeTranslates | arch/x86_64/mm/mm.c:107-115 | under an aligned huge entry an address translates to its place in the 1 GiB or 2 MiB page |
| Paging.TranslationIsUnambiguous | arch/x86_64/mm/mm.c:88-122 | a mapped address translates below 2^52; an unmapped one to the code -1 to -4 of the level missing |
| Paging.CanWriteIff | arch/x86_64/mm/mm.c:62-79 | a page whose tables are there can be written exactly when every entry on its path has the writable bit |
| Paging.GetPageDeep | arch/x86_64/mm/mm.c:182-214 | for every memory its outputs are the slots of the tables reached through present entries; where no huge entry is met it returns 0 exactly for mapped pages |
| Paging.WalkersAgree | arch/x86_64/mm/mm.c:124-145 | both lookups follow translation's path exactly when no huge entry is met, and read the memory behind one as a table; each level's output is there exactly when no higher level is missing, and the slot of a mapped page holds the entry translation used |
| PageTree.InstallKeepsTree | arch/x86_64/mm/mm.c:64-68 | putting a vacant table in an absent entry keeps the tables a tree |
| PageTree.InstallExtends | arch/x86_64/mm/mm.c:64-68 | and changes no walk, but that a missing page may be missing one level lower |
| PageTree.InstallKeepsWrite | arch/x86_64/mm/mm.c:64-68 | a table installed by a writable entry changes no mapped page's write access and puts no read-only table in any page's way |
| PageTree.SetChangesOne | arch/x86_64/mm/mm.c:74-79 | writing a PML1 entry changes the walk of the one page it stands for |
| AddressSpace.AddressSpace.NextTable | arch/x86_64/mm/mm.c:62-71 | one step down, adding a table by a writable entry if needed: the tree, the path, every other walk, every page's write access and every lowest-level table are kept, at most one frame is taken and it is the new table's; it fails only when no frame is free |
| AddressSpace.AddressSpace.MapAddr | arch/x86_64/mm/mm.c:54-80 | the page's walk ends in the stored frame with the slot's old bits, present, and the admitted flags; asked to be writable it is, along the whole path, unless a table on it was read-only before; every other mapped page walks and is writable as before, unmapped ones stay unmapped, and the frames taken are exactly the new tables, at most three; it fails only when fewer than three frames were free and none is left |
| AddressSpace.PathIndexIs | arch/x86_64/mm/mm.c:59-62 | the indices taken from the unmasked address are those of the walkers |
| Mappings.MappedTranslates | arch/x86_64/mm/mm.c:117-121 | every address of a mapped page translates to its frame plus the offset |
| Mappings.OthersTranslateAlike | arch/x86_64/mm/mm.c:54-122 | mapping a page changes no other page's translation or write access and maps no other page |
| Mappings.StoredIsRightIff | arch/x86_64/mm/mm.c:75 | the stored field names the right frame exactly when it is the frame number, or the frame is 0 |
| Mappings.UnclearedTable | arch/x86_64/mm/mm.c:62-71 | after an uncleared table is installed at any of the three levels, every page under the entry, unmapped before, walks as the words left in the frame say, read in the old memory unless they lead back to the table being filled |
| Mappings.UnclearedPml1 | arch/x86_64/mm/mm.c:65-67 | under a new PML1 table a page stays unmapped exactly when the frame's old word lacks the present bit |
| Mappings.ClearedTable | arch/x86_64/mm/mm.c:65-67 | a frame without present words leaves every page under the entry unmapped, at every level |
| Mappings.UnclearedPml3MapsGigabyte | arch/x86_64/mm/mm.c:65-67 | one leftover word in a new PML3 table maps a gigabyte nobody mapped |
| Mappings.UnclearedLeadsBack | arch/x86_64/mm/mm.c:65-67 | a leftover word naming the PML4 maps a page that the frame's words in the old memory leave missing |
| HeapGrowth.HeapSpace.GrowPage | kernel/kmalloc.c:43-51 | one more heap page on a frame that was free, everything HeapSpace.Valid says being kept exactly when line 75 of mm.c stores the frame number or the frame is 0; it fails only when fewer than four frames were free and none is left |
| HeapGrowth.HeapSpace.Sbrk | kernel/kmalloc.c:35-54 | the heap grows by the rounded increment, and does whenever four frames for each page are free; its pages map, writable along their whole path, to pairwise distinct frames in use that hold no page table and no reserved memory; no page but the new ones changes |
| HeapGrowth.HeapSpace.SbrkRun | kernel/kmalloc.c:35-54 | over every run of calls the heap grows by all the rounded increments unless the frames run out, old pages keeping their frames and no page but the new ones changing its mapping or write access |
| HeapGrowth.HeapTranslates | kernel/kmalloc.c:43-51 | each heap address translates into its own page's frame at its own offset |
| HeapBacking.HeapIsInjective | kernel/kmalloc.c:43-51 | different heap addresses translate to different physical addresses |
| HeapBacking.BackedSharesNothing | kernel/kmalloc.c:35-119 | two live blocks of the byte heap on mapped pages share no physical byte |
| HeapBacking.BackedIsSheltered | kernel/kmalloc.c:35-119 | no heap byte lies in a page table or in memory reserved before the heap |
| HeapBacking.Perform | kernel/kmalloc.c:35-202 | one operation with sbrk's pages mapped first; it fails only when no frame is free, and then leaves the allocator as it was |
| HeapBacking.RunBacked | kernel/kmalloc.c:35-202 | a legal run from the empty heap stops early only when no frame is free; the heap is the one described for the operations served, lies on mapped pages, shares no memory between live blocks and touches no page table or reserved memory |
| HeapGrowth.HeapHasRoom | kernel/kmalloc.c:43-51 | the heap stays shorter than 2^20 pages, below the direct map |
| Boot.LowTablesFitIff | arch/x86_64/mm/mm.c:236-239 | the low tables end exactly at the least multiple of 16 MiB not below the end address, and fit their 32-table array exactly when that address is at most 64 MiB |
| Boot.MapHigh | arch/x86_64/mm/mm.c:225-230 | the loops write the 64 tables of large pages and their pointers, nothing else |
| Boot.MapLow | arch/x86_64/mm/mm.c:240-244 | the loops write the low tables and their pointers, nothing else |
| Boot.MapBitmap | arch/x86_64/mm/mm.c:256-265 | the loop writes the bitmap's pages across three tables, nothing else |
| Boot.BuildTables | arch/x86_64/mm/mm.c:218-265 | every static table ends up with its boot entries and no other frame changes |
| BootProofs.DirectMapTranslates | arch/x86_64/mm/mm.c:42-45 | translating mmu_to_virt(p) gives p, writable, for every p below 64 GiB |
| BootProofs.LowIsIdentity | arch/x86_64/mm/mm.c:232-249 | every address from 0x1000 to the end of the low tables translates to itself and can be written |
| BootProofs.PageZeroIff | arch/x86_64/mm/mm.c:245-246 | page zero reports -4 exactly when there is a low table at all |
| BootProofs.BitmapTranslates | arch/x86_64/mm/mm.c:255-265 | the bitmap's bytes appear at the start of the heap region, writable |
| BootProofs.DirectMapSurvives | arch/x86_64/mm/mm.c:70-71 | after any growth of the heap the direct map, through which the tables themselves are reached, still shows every address below 64 GiB |
| BootProofs.LowIdentitySurvives | arch/x86_64/mm/mm.c:232-249 | and low memory is still mapped to itself |
| BootProofs.BitmapSurvives | arch/x86_64/mm/mm.c:255-265 | and the allocator still sees its bitmap, writable |
| BootProofs.PageZeroSurvives | arch/x86_64/mm/mm.c:245-246 | and page zero is still unmapped |
| BootProofs.UserEntriesIff | arch/x86_64/mm/mm.c:218-265 | of all boot entries exactly the two above the PML2 table of low memory are open to user mode, so no page is |
| BootProofs.BootIsTree | arch/x86_64/mm/mm.c:218-265 | the boot tables form a tree, so later mappings start from the state they need |
| Startup.MmuInit | arch/x86_64/mm/mm.c:216-276 | from a machine under 4 GiB, mmu_init leaves the boot tables; low memory mapped to itself up to the least multiple of 16 MiB that covers the end, page zero unmapped, the direct map and the bitmap in place, all writable; an empty heap behind the bitmap with everything HeapSpace.Valid needs; and exactly the memory up to the bitmap's end reserved |
| Startup.InitAndGrow | arch/x86_64/mm/mm.c:216-276 | after mmu_init and any run of sbrk all of that is still mapped and writable, and the heap has grown by all increments unless the frames ran out |
| Keyboard.RunWritesInOrder | kernel/ps2_keyboard.c:83-151 | on every run the bytes written, retransmissions aside, are the accepted commands in order up to the current one, and the driver is ready exactly when none is left |
| Keyboard.RunKeeps | kernel/ps2_keyboard.c:101-304 | every event keeps the driver consistent: at most 8 pending, ready exactly with an empty queue, an argument awaited only of a command with one |
| Keyboard.ReceiveCounts | kernel/ps2_keyboard.c:255-303 | each byte but RESEND acknowledges exactly one outstanding byte, RESEND none |
| Keyboard.ReadyAfterExactly | kernel/ps2_keyboard.c:234-304 | without new commands the driver is ready exactly from the moment as many non-RESEND bytes came in as were outstanding |
| Keyboard.QueryFollowsIff | kernel/ps2_keyboard.c:105-120 | a scan-set command gets its follow-up query exactly when two slots were free |
| Keyboard.SubmitTakes | kernel/ps2_keyboard.c:101-123 | a request is added to the accepted commands, with its query where one follows, exactly when fewer than 8 are pending, is written at once exactly when none was, and changes nothing when 8 are |
| Keyboard.RunAccepts | kernel/ps2_keyboard.c:83-151 | on every run from power-up the accepted commands are the requests made while fewer than 8 were pending, in order and with their queries, the pending ones being counted from the events alone |
| Keyboard.RunRepeatsLast | kernel/ps2_keyboard.c:255-290 | on every run each retransmitted byte is the byte written just before it |
| Keyboard.ResendRepeats | kernel/ps2_keyboard.c:255-277 | RESEND while a command is under way writes the last byte once more and changes nothing else |
| Keyboard.ScanSetFollowsQuery | kernel/ps2_keyboard.c:280-293 | the known scan code set changes only when a query's argument is acknowledged, to the set the next byte names |
| Keyboard.KmainCommands | arch/x86_64/kmain.c:35-36 | kmain's two commands, with one byte asked for again: the exact bytes written and the set known at the end |
| KeyboardDriver.AddedPlaces | kernel/ps2_keyboard.c:83-92 | a new command takes a ring slot no pending command has, and moves none |
| KeyboardDriver.Driver.QueueAdd | kernel/ps2_keyboard.c:83-92 | the ring holds the pending commands plus the new one, or drops it when full |
| KeyboardDriver.Driver.QueueDiscard | kernel/ps2_keyboard.c:94-99 | the oldest pending command is gone, the others stay |
| KeyboardDriver.Driver.CommandArg | kernel/ps2_keyboard.c:101-123 | the static variables step as the state machine does for a request |
| KeyboardDriver.Driver.CurrentCommand | kernel/ps2_keyboard.c:130-139 | the oldest pending command, zeros when there is none |
| KeyboardDriver.Driver.HandleNextCommand | kernel/ps2_keyboard.c:142-151 | the next command starts or the driver is ready |
| KeyboardDriver.Driver.KeyboardHandler | kernel/ps2_keyboard.c:234-304 | the static variables step as the state machine does for an input byte, the corrupted-state branch is unreachable, and the byte is scan data exactly in the ready state |
| Decoder.DecodesEach | kernel/ps2_keyboard.c:153-231 | every sequence of well-formed codes without Pause gives one event per code, ends idle, and stores at most 6 bytes of the 8-byte buffer |
| Decoder.DecodesAsIntendedIff | kernel/ps2_keyboard.c:153-231 | the events are the intended ones exactly when no code is Pause or a PrtSc release |
| Decoder.PauseLeavesStuck | kernel/ps2_keyboard.c:196-200 | after Pause four ordinary bytes give no event and the fourth has no place in the buffer |
| Decoder.PauseStartsAsNumLock | kernel/ps2_keyboard.c:170-231 | the third byte of Pause reports NumLock |
| Decoder.SameExtendedKeyIff | kernel/ps2_keyboard.c:64-81 | two extended codes give the same key exactly for Page Up and Page Down |
| Typing.TypingPrints | kernel/ps2_keyboard.c:153-231 | striking and releasing the keys labelled with the characters of a text, by their standard set-2 codes, prints that text |
| Typing.PrintsZeroIff | kernel/ps2_keyboard.c:217-222 | a press prints 0 exactly for the key 0, for Escape and for codes without a key |
| Typing.CursorKeys | kernel/ps2_keyboard.c:64-81 | the cursor block and the arrows have the key codes of include/kernel/input_codes.h at their standard codes |
| Typing.KeypadFourAndSeven | kernel/ps2_keyboard.c:59 | the standard codes of keypad 4 and 7 have no key |
| Typing.WireBytesDecode | kernel/ps2_keyboard.c:170-231 | the literal bytes of Up pressed, Up released and A give those events |
| Decoder.ScanDecoder.HandleData | kernel/ps2_keyboard.c:153-231 | the static variables and the emitted event follow the decoder's step function, and the byte is stored at the buffer's pointer |
| KeyboardRuns.HandleAll | kernel/ps2_keyboard.c:101-304 | on every run of commands and interrupts the static variables of driver and decoder end where the two state machines do, and the keys reported are the decoder's for the bytes received while ready |
| KeyboardRuns.HandleCodes | kernel/ps2_keyboard.c:83-304 | from power-up, when those bytes are scan codes without Pause, each is reported once and in order, while the commands accepted are the requests made with fewer than 8 pending, and the bytes written are these in order, each retransmission repeating the byte before it |
| Terminal.EntryKeepsColourIff | arch/x86_64/vga_print.c:19-22 | a cell holds the character, and its colour exactly for 7-bit characters or colour 0xFF |
| Terminal.PutPrints | arch/x86_64/vga_print.c:66-83 | a printed character advances the layout's cursor by one cell and changes only the cell it left; past the last cell a line of blanks in the current colour begins |
| Terminal.NewlineBreaks | arch/x86_64/vga_print.c:68-70 | a newline goes to the start of the next line, keeps every cell, and a line it adds is blank in the current colour |
| Terminal.TextLandsInOrder | arch/x86_64/vga_print.c:85-89 | text without newlines lands in consecutive cells and disturbs no other |
| Terminal.PutAllInTurn | arch/x86_64/vga_print.c:85-89 | any text is laid out character by character, newlines included |
| Terminal.PerformInTurn | arch/x86_64/vga_print.c:38-89 | so is any run of characters and colours |
| Terminal.StartsBlank | arch/x86_64/vga_print.c:24-36 | the blank layout is 25 lines of light-grey spaces with the cursor at their beginning |
| Terminal.Vga.constructor | arch/x86_64/vga_print.c:24-36 | a blank light-grey screen showing the blank layout |
| Terminal.Vga.SetColor | arch/x86_64/vga_print.c:38-41 | only the colour of later cells changes |
| Terminal.Vga.Scroll | arch/x86_64/vga_print.c:55-64 | the in-place loops move each cell up by the given lines and leave blanks |
| Terminal.ScrollDropsOldest | arch/x86_64/vga_print.c:55-64 | scrolling by one line shows the layout with a blank line added at the end |
| Terminal.Vga.Putchar | arch/x86_64/vga_print.c:66-83 | the buffer shows the last 25 lines of the unbounded layout with the character put, the cursor inside 80x25 |
| Terminal.Vga.Write | arch/x86_64/vga_print.c:85-89 | the same for a whole text |
| Terminal.Vga.PerformAll | arch/x86_64/vga_print.c:38-89 | the same for every run of characters and colour changes |
| Itoa.Itoa | kernel/printk.c:7-31 | the numeral is in place, the byte before the buffer becomes zero and its old value follows the numeral, so the C string has the numeral's length exactly when that byte was zero; nothing else changes |
| Itoa.UnterminatedSeven | kernel/printk.c:24-30 | with a nonzero byte before the buffer "7" is left without a terminator |
| Itoa.WriteDigits | kernel/printk.c:11-20 | the digits, least significant first |
| Itoa.ReverseDigits | kernel/printk.c:24-30 | the loop mirrors the bytes from the one before the buffer to the terminator |
| Itoa.NumeralReadsBack | kernel/printk.c:7-31 | the numeral reads back to the number in its base |
| Itoa.NoLeadingZero | kernel/printk.c:7-31 | the numeral of any number is one digit or has no leading zero |
| Itoa.NumeralsFit | kernel/printk.c:44-59 | 64-bit numbers need at most 20 decimal or 16 hexadecimal digits |
| Strings.Memmove | kernel/string.c:47-64 | however the ranges overlap the destination gets the old source and nothing else changes (section 7.24.2.2 of ISO/IEC 9899:2011) |
| Strings.Memcmp | kernel/string.c:19-32 | zero exactly for equal ranges, else the difference of the first bytes that differ |
| Strings.Strlen | kernel/string.c:172-179 | the distance to the first zero byte |
| Strings.Strstr | kernel/string.c:195-211 | the first occurrence or none, reading only inside both strings (section 7.24.5.7 of ISO/IEC 9899:2011) |

## Left out

- KernelHeap.Allocator.Kmalloc: a request under 8 bytes must get a whole free block, because otherwise headers and link overlap; what the stores then do is SmallRequests.SplitIsRightIff. Growth needs room below the limit, where the source has no error path.
- HeapMemory.SplitWrites: requests under 8 bytes are SmallRequests.SplitIsRightIff.
- HeapRuns.RunOwnsEachByteOnce: legal runs make only the requests MallocKeepsIff admits.
- HeapRuns.RunLiveIsHeld: legal runs make only the requests MallocKeepsIff admits.
- HeapRuns.RunOrdersIff: legal runs make only the requests MallocKeepsIff admits.
- KernelHeap.Allocator.RunCalls: legal runs make only the requests MallocKeepsIff admits.
- KernelHeap.Allocator.Sbrk: new pages are arbitrary bytes; that they have frames of their own is HeapGrowth.HeapSpace.Sbrk and HeapBacking.RunBacked.
- AddressSpace.AddressSpace.MapAddr: takes pages with no huge entry on their path, because map_addr_in would use a huge page's memory as a table.
- AddressSpace.AddressSpace.NextTable: takes pages with no huge entry on their path, for the same reason.
- KeyboardRuns.HandleAll: takes runs whose scan data fits the decoder's 8-byte buffer, because the source writes past it otherwise (Decoder.PauseLeavesStuck).
- Decoder.DecodesEach: codes past the two tables are not covered, because the source reads beyond its arrays there.
- Startup.MmuInit: machines of 4 GiB and more are left out, because the allocator's bound check wraps there and frames are handed out twice (FrameRuns.AllocsDistinctAfterInitIff); the static tables are taken in declaration order.
- Interleaving of interrupts with command submission: each is one step, since the source disables the port around submission.
- Port I/O, control registers, TLB invalidation, the switch of CR3 and the messages printed.
- The value of get_total_memory, which mixes bytes and frames: an arbitrary bound in kmalloc.
- Device handshakes (kernel/ps2_8042.c, arch/x86_64/pic.c, arch/x86_64/pit.c), the GDT and IDT, the boot assembly and kernel/multiboot2_parser.c: the memory size is an input.
- vprintk, the page fault handler, vga_set_pos (which can leave the screen) and the remaining string functions: they keep no state that the modelled parts depend on.
