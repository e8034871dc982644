# Garg-OS: a verified model of the kernel core

Garg-OS is a small 32-bit x86 kernel. This project models its five stateful components
in Dafny and proves what they keep over whole runs.

**Process heap** (`LittleEndian`, `Blocks`, `Policy`, `AlignedSearch`, `AlignedWalk`,
`BlockMemory`, `Carving`, `ProcessHeap`, `HeapRuns`). A first-fit allocator whose 6-byte
headers live in the memory it hands out. `Blocks` and `Policy` describe the heap as a
sequence of blocks laid end to end; `BlockMemory` and `Carving` read and write the
headers in a byte array, a header being the packed flag and size and nothing else
(`HeaderExactly`); the class `ProcessHeap.Heap` is the C code, proved to perform the
steps of `Policy`; `HeapRuns` follows whole runs, in the abstract and in memory, with the owners'
own writes among the steps. The central fact is that a heap without adjacent free blocks
is determined by its size and its live allocations (`CanonicalForm`), so freeing what
`malloc` returned restores the heap exactly. Both the plain and the page-aligned path
are covered. Two 32-bit wrap-arounds that decide behaviour are kept. The guard of
`divide_block` protects the tiling exactly when the payload is at least six bytes
(`DivideConserves`, `SplitSafe`), and runs reach blocks smaller than that
(`SmallRemainder`). The loop test of the aligned search never stops on some blocks
(`SearchEndsExactly`); an aligned `malloc` returns an address in a block exactly under
`NoTrap` and `GrowsOnPage` (`AlignedMallocReturns`), and on a page-aligned heap the
first aligned request leaves a block that no aligned request of up to 4084 bytes gets
past while it stands (`FirstAlignedLeavesFront`, `FrontTraps`). The shortcut for an
already aligned payload compares the header address plus six with zero and is never
taken.

**Paging** (`Bits`, `PageTables`, `Paging`, `PagingRuns`). Physical memory is an array
of words. The frame bitmap, the directories and their tables are pages of it, supplied
by the bump allocator; `Layout` records which page is which. `PageTables` says what each
kind of write does to every translation of every directory, the class `Paging.Pager` is
the C code, and `PagingRuns` proves process isolation over every run of directory
creation and page allocation. Two kinds of table are not cleared when they are made: the
exact conditions under which nothing stale shows through are `CleanEnd` and `CleanFor`,
and on kernel memory that was zero at first every present translation of a process is an
allocated page or an unremapped page of the kernel (`NoForeignFrame`). With paging on,
the code reaches its own bitmap and tables through the directory it runs under; it finds
them where they are exactly while no page of the kernel was mapped anew there
(`SeesKernelExactly`), which every operation of a run has to respect (`RemapBlinds`
shows what happens otherwise). Entries are built and taken apart with bitwise `|` and
`&`, defined bit by bit in `Bits`.

The processor grants an access only if the entries of both levels do, and the rights of
a page are stated that way. A page gets the write and user rights its request asked for
as far as its table has them (`AccessGiven`), keeps them while it is not mapped again
(`RightsOfPage`), and the kernel's pages stay closed to user mode in every directory
(`KernelStaysClosed`). A comment in the source says a new table is accessible by all and
writeable; the code gives it the rights of the request that made it, and a page below
16 MiB shares a table with the kernel's pages and so is closed to user mode whatever was
asked (`SharedTableCloses`).

**Heaps over paging** (`PhysicalMemory`, `HeapIsolation`, `OneMemory`). One history of
the whole system over one physical memory, which holds the heaps and the page tables
alike: directories are made, pages mapped and heaps started, and each heap operation
first takes the pages it grows by from `alloc_page` and then changes memory through its
own translations as the class `Heap` is proved to. In every such history every heap is
mapped to its last byte and tiled by the headers in physical memory, the tables in that
memory translate it, and an allocated byte keeps its physical address and its value
until its own process writes it. A heap that grows must end on a page end, as the
declaration of a process asks: growth keeps its bytes in place exactly then
(`GrowthInPlaceExactly`).

**Scheduler, process table and timer** (`Scheduling`, `Fairness`, `Contexts`,
`Scheduler`). One state machine driven by timer interrupts, additions and removals, for
a table of any size: round robin of the calls and in every run, fairness whoever comes
and goes, a real-time bound, records that stay what they were added as, and context
preservation, which holds exactly for the runs in which no switch saves other registers
over those of a process added to the slot of a removed one that is still running. Every
interrupt returns the registers it stopped or, if it dispatches, those of the process it
goes to (`InterruptReturns`).

**Text console** (`ScreenModel`, `Numerals`, `Console`, `TextLaws`). The 25 by 80 screen
is a window on an unbounded page that never scrolls. Text typed anywhere stands on the
screen, scrolled or not, a printed number reads off it as that number, and the control
characters and cursor keys obey the laws an editor relies on.

**ELF segment loader** (`ElfLoader`). The program-header loop of the boot loader over an
arbitrary header table. An encoder lays out the fields of the file header and the program
headers in order, as in the "ELF Header" section of chapter 4 and the "Program Header"
section of chapter 5 of the System V gABI, and any image that holds the encoding of its
headers is loaded as they say.

Addresses are natural numbers with the bound stated where the code relies on not
wrapping, and reduced modulo 2^32 where it does not.

## Model

| member | source | states |
|---|---|---|
| `Blocks.CanonicalForm` | p_mode/memory_management/kernel/heap.c:77-95 | two heaps with no adjacent free blocks, the same size and the same live allocations are the same block list |
| `Blocks.LiveBounds` | p_mode/memory_management/kernel/heap.c:24-75 | live payloads lie inside the heap, in order, each separated from the next by at least a header |
| `Blocks.UniteCorrect` | p_mode/memory_management/kernel/heap.c:77-95 | merging conserves the heap's bytes, keeps the address and size of every allocation and leaves no two adjacent free blocks |
| `Blocks.UniteUnique` | p_mode/memory_management/kernel/heap.c:77-95 | a list is the result of merging if and only if it has those three properties |
| `Blocks.UniteIdempotent` | p_mode/memory_management/kernel/heap.c:77-95 | merging a merged heap changes nothing |
| `Policy.FirstFit` | p_mode/memory_management/kernel/heap.c:28-31 | the result is the first block that serves the request, or the number of blocks if none does |
| `Policy.CarveCorrect` | p_mode/memory_management/kernel/heap.c:32-70 | cutting the chosen block conserves its bytes and yields one allocation, at the promised address (on a page boundary if aligned) and of at least the requested size; the aligned cut gives two or three blocks |
| `Policy.WasteExactly` | p_mode/memory_management/kernel/heap.c:16-70 | an allocation holds exactly the bytes requested, or all that is left of its block, the latter exactly when less than a header would remain, or just a header in the aligned cut |
| `Policy.PlaceCorrect` | p_mode/memory_management/kernel/heap.c:28-75 | serving a request inserts exactly one allocation between the existing ones, keeps the total size and creates no adjacent free blocks |
| `Policy.GrowIsExtend` | p_mode/memory_management/kernel/heap.c:123-131 | appending a page as a free block and merging extends the trailing free space by one page |
| `Policy.RoundsExact` | p_mode/memory_management/kernel/heap.c:118-134 | while fewer pages than needed were added no block fits, and after exactly that many it is the trailing block that serves the request |
| `Policy.RoundsBound` | p_mode/memory_management/kernel/heap.c:118-134 | at most ceil((n+6)/PAGE_SIZE) growth rounds, and ceil((n+4108)/PAGE_SIZE) when aligned |
| `Policy.FreeCorrect` | p_mode/memory_management/kernel/heap.c:136-140 | freeing removes exactly that allocation, keeps the total size and leaves no adjacent free blocks |
| `AlignedSearch.SearchEndsExactly` | p_mode/memory_management/kernel/heap.c:37-61 | under 32-bit wrap-around the boundary search stops if and only if a suitable boundary exists or the block ends less than the requested bytes past a page boundary |
| `AlignedSearch.EndsWellExactly` | p_mode/memory_management/kernel/heap.c:37-61 | for every payload size the search ends inside the block or leaves it if and only if that condition holds; a payload below six bytes that fails it is sent outside the block |
| `AlignedSearch.PageEndStops` | p_mode/memory_management/kernel/heap.c:37-61 | the search always stops on a block that ends on a page boundary |
| `AlignedSearch.SearchCanHang` | p_mode/memory_management/kernel/heap.c:37-61 | a concrete free block on which no iteration of the search ever stops |
| `AlignedSearch.SearchBoundary` | p_mode/memory_management/kernel/heap.c:37-61 | the loop ends in the iteration that stops and returns its candidate or nothing: the first boundary more than twelve bytes above the header if the request fits there |
| `AlignedWalk.WalkReturnsExactly` | p_mode/memory_management/kernel/heap.c:28-75 | an aligned walk over the heap returns an address in a block, or none, if and only if every free block large enough that lies before the first fit satisfies the search condition; a block that does not keeps the search going for ever or, below six bytes, sends it outside |
| `AlignedWalk.AlignedMallocReturns` | p_mode/memory_management/kernel/heap.c:118-134 | an aligned malloc returns an address in a block, every page it grows into holding the new block and nothing the heap already has, if and only if no block before the first fit is such a trap and a heap that must grow ends on a page end; both are decided before the call |
| `AlignedWalk.AlignedWalksReturn` | p_mode/memory_management/kernel/heap.c:118-134 | the walks of an aligned malloc alone, wherever the heap ends: all return an address in a block, or none, if and only if the heap as it stands sets no trap and its growing end sets none |
| `AlignedWalk.EveryPageFitsExactly` | p_mode/memory_management/kernel/heap.c:9-12 | for either kind of request, each page a heap grows into holds the whole new block and no byte the heap already has if and only if no page is needed or the heap ends on a page end |
| `AlignedWalk.PageEndGrows` | include/process.h:12 | a heap that ends on a page end, as the declaration of a process asks, sets no trap while it grows |
| `Carving.DivideConserves` | p_mode/memory_management/kernel/heap.c:14-22 | the pieces left by divide_block add up to the block if and only if its payload is at least a header; below that the guard wraps, the block is split regardless and the new header runs past its end |
| `Carving.DivideBlock` | p_mode/memory_management/kernel/heap.c:14-22 | refuses by the wrapped guard, otherwise writes the two sizes; no other byte changes |
| `Carving.CarvePlain` | p_mode/memory_management/kernel/heap.c:64-70 | headers in memory spell out the unaligned cut, and only bytes of the block change |
| `Carving.CarveAligned` | p_mode/memory_management/kernel/heap.c:44-60 | headers in memory spell out the aligned cut, and only bytes of the block change |
| `BlockMemory.TiledAt` | p_mode/memory_management/kernel/heap.c:28-31 | walking by header sizes lands on the header of every block in turn |
| `BlockMemory.Retile` | p_mode/memory_management/kernel/heap.c:16-75 | rewriting one block by blocks of the same extent keeps the whole heap tiled |
| `BlockMemory.PayloadsApart` | p_mode/memory_management/kernel/heap.c:24-75 | no live payload meets the header of any block or any byte of a free block |
| `LittleEndian.ByteIsDigit` | include/heap.h:11-14 | byte i of a field that holds x is x / 256^i modulo 256 |
| `BlockMemory.HeaderExactly` | include/heap.h:11-14 | the bytes of a header are the two little-endian bytes of the flag and the four of the size if and only if that flag and size are read there, and they are as many as the code steps over |
| `BlockMemory.HeaderTells` | include/heap.h:11-14 | two memories agree on the bytes of a header if and only if they agree on its flag and its size: no byte of a header belongs to neither |
| `BlockMemory.EveryByteInBlock` | include/heap.h:11-14 | every byte of a heap is a byte of the header or of the payload of one of its blocks |
| `BlockMemory.PointerBehindHeader` | p_mode/memory_management/kernel/heap.c:136-140 | in memory the bytes of the encoded flag and size of a live block end where its pointer begins |
| `ProcessHeap.Heap.constructor` | p_mode/memory_management/kernel/heap.c:97-104 | a new heap is one free block tiling the whole heap |
| `ProcessHeap.Heap.GetFreeBlock` | p_mode/memory_management/kernel/heap.c:24-75 | takes the first fit by the policy's cut or reports that none fits with memory unchanged; tiling kept, no live byte touched; asks only that no block before the first fit traps an aligned search and that an unaligned first fit holds six bytes |
| `ProcessHeap.Heap.UniteFreeBlocks` | p_mode/memory_management/kernel/heap.c:77-95 | the headers afterwards spell out the merged list; no live byte touched |
| `ProcessHeap.Heap.Malloc` | p_mode/memory_management/kernel/heap.c:118-134 | NULL for zero bytes; otherwise, if the heap can be searched and ends on a page end should it have to grow, grows by exactly the needed pages, returns the policy's address, which stands right behind the six bytes of its header, keeps the tiling and changes no byte of a live payload or outside the heap |
| `ProcessHeap.Heap.Free` | p_mode/memory_management/kernel/heap.c:136-140 | marks the block free and merges; tiling kept, no byte of a remaining payload changes |
| `ProcessHeap.LargeRequestsSafe` | p_mode/memory_management/kernel/heap.c:17 | unaligned requests of at least six bytes never meet the wrapping guard |
| `HeapRuns.ReachableHeaps` | p_mode/memory_management/kernel/heap.c:97-140 | in every run from initialise_heap: no adjacent free blocks, growth by whole pages, every outstanding request holds at least its bytes, inside the heap and apart from all others |
| `HeapRuns.FreeUndoesMalloc` | p_mode/memory_management/kernel/heap.c:118-140 | free(malloc(n)) restores the previous block list, with only its trailing free space extended if pages were added |
| `HeapRuns.MallocIsLive` | p_mode/memory_management/kernel/heap.c:118-134 | the pointer malloc returns can be freed |
| `HeapRuns.FirstPointer` | p_mode/memory_management/kernel/heap.c:97-134 | the first unaligned request on a new heap returns its start plus the length of an encoded header |
| `HeapRuns.OwnerWritesKeepTiling` | p_mode/memory_management/kernel/heap.c:24-31 | writing inside live payloads leaves every header readable |
| `HeapRuns.Perform` | p_mode/memory_management/kernel/heap.c:118-140 | the heap in raw memory performs each step of a run and changes nothing else |
| `HeapRuns.PerformAll` | p_mode/memory_management/kernel/heap.c:97-140 | from initialise_heap on, after every operation of a run the headers in memory tile the heap as the run says |
| `HeapRuns.PayloadsSurvive` | p_mode/memory_management/kernel/heap.c:118-140 | a byte allocated from one step to another holds the same value at both unless its owner wrote it |
| `HeapRuns.ReadsLastWrite` | p_mode/memory_management/kernel/heap.c:118-140 | what an owner wrote last to an allocated byte is what it reads |
| `HeapRuns.FirstAlignedLeavesFront` | p_mode/memory_management/kernel/heap.c:40-60 | on a page-aligned heap of whole pages every first aligned request leaves a free block of 4084 bytes in front |
| `HeapRuns.FrontTraps` | p_mode/memory_management/kernel/heap.c:40-46 | while that block stands, every iteration of an aligned search for 1 to 4084 bytes continues, so the call never returns |
| `HeapRuns.SmallRemainder` | p_mode/memory_management/kernel/heap.c:17 | runs reach heaps on which a request of one to five bytes takes a block too small for the guard |
| `HeapRuns.FilledMidPage` | p_mode/memory_management/kernel/heap.c:9-12 | a heap that ends inside a page can be filled to its last byte, after which any request has to grow it and no run goes on that way |
| `Bits.MaskFindsAlignedOnly` | p_mode/memory_management/kernel/paging.c:132-146 | a table address stored with flags is found again through the 0xFFFFF000 mask if and only if it is page-aligned |
| `Bits.AddressPart` | p_mode/memory_management/kernel/paging.c:134 | the mask rounds an entry down to its page |
| `PageTables.WriteEntry` | p_mode/memory_management/kernel/paging.c:144-147 | writing one table entry changes one translation of one directory, and neither tables nor bitmap |
| `PageTables.LinkTable` | p_mode/memory_management/kernel/paging.c:131-134 | a new table changes only the translations under its slot, which become what the page holds |
| `PageTables.MarkFrame` | p_mode/memory_management/kernel/paging.c:162-169 | writing a frame's bit puts that frame among the used ones or takes it out and changes no translation |
| `Paging.Pager.KmallocAll` | p_mode/memory_management/kernel/kheap.c:8-16 | hands out the aligned or current address, reports it as the physical one if asked, and advances past it, all modulo 2^32 |
| `Paging.FirstClearBit` | p_mode/memory_management/kernel/paging.c:90-96 | the lowest clear bit of a bitmap word, or 32 |
| `Paging.Pager.FirstFreeFrame` | p_mode/memory_management/kernel/paging.c:86-101 | the least unused frame; halting is reported only when every frame is used |
| `Paging.Pager.WriteBitset` | p_mode/memory_management/kernel/paging.c:162-169 | sets or clears exactly one frame's bit; no translation changes |
| `Paging.Pager.GetBitset` | p_mode/memory_management/kernel/paging.c:212-214 | one for a used frame, zero otherwise |
| `Paging.Pager.GetPage` | p_mode/memory_management/kernel/paging.c:205-210 | the entry translating the address if its table exists, otherwise the word of the page that the empty directory entry names |
| `Paging.Pager.AddTable` | p_mode/memory_management/kernel/paging.c:130-134 | a table lies in the page that holds the allocator's next address, rounded up only if aligned, and its directory entry is that address with the flags given; it adds no mapping if it is cleared, and otherwise exactly the entries its page held before; all other directory entries and translations, the bitmap, the other tables and fresh memory stay |
| `Paging.TableShares` | p_mode/memory_management/kernel/paging.c:132-134 | the unaligned table of a process lies in a page part of which was handed out before, and which is then cleared, if and only if the bump allocator stands off a page boundary |
| `Paging.EntryGives` | p_mode/memory_management/kernel/paging.c:133-147 | once the entry is set the page is writeable if and only if that was asked for, or the address brings the bit along, at both levels, a table that was there counting with the rights it had; user access likewise |
| `Paging.EffectKeepsRights` | p_mode/memory_management/kernel/paging.c:116-151 | no other page of any directory gains or loses a right, save pages the kernel directory did not map before |
| `Paging.KernelClosed` | p_mode/memory_management/kernel/paging.c:56-67 | identity entries with 3 under tables with 3 are writeable and closed to user mode |
| `Paging.IdentityRights` | p_mode/memory_management/kernel/paging.c:104-113 | a frame's identity page added to the kernel directory is writeable and closed to user mode |
| `Paging.Pager.AddFrameToKernelDir` | p_mode/memory_management/kernel/paging.c:103-114 | the kernel directory loses nothing; it gains the frame's identity page, unless it had that page, and nothing else, if and only if it had a table there or the fresh page is clean; a new table is closed to user mode; other directories unchanged |
| `Paging.Pager.FreePage` | p_mode/memory_management/kernel/paging.c:153-160 | whatever page is named and whatever the unaligned read through its flagged table address yields, exactly frame 0 is marked free and no translation changes, so frame 0, the kernel's, is the next one handed out |
| `LittleEndian.BytesLieThere` | p_mode/memory_management/kernel/paging.c:153-160 | a 32-bit read at any byte address yields the word whose four bytes lie there |
| `Paging.Pager.AllocPagePr` | p_mode/memory_management/kernel/paging.c:116-151 | for any frame address, aligned or not: refuses exactly the frames in use; takes the requested frame only if the table exists and the least free one otherwise; sets one entry, with the rights asked for as far as its table has them, marks one frame and touches no other translation or right |
| `Paging.Pager.AllocPage` | p_mode/memory_management/kernel/paging.c:82-84 | maps the least free frame with the stated effect on every directory, or halts when none is left; the page is writeable and open to user mode if and only if that was asked for and its table is new or is so |
| `Paging.Pager.constructor` | p_mode/memory_management/kernel/paging.c:35-40 | an empty kernel directory and an empty bitmap |
| `Paging.Pager.InitPaging` | p_mode/memory_management/kernel/paging.c:35-50 | the kernel directory maps exactly the pages below KERNEL_MEM_END, each to itself, writeable and closed to user mode, and exactly those frames are used |
| `Paging.Pager.NewKernelMappedDir` | p_mode/memory_management/kernel/paging.c:52-69 | a new directory maps every page below KERNEL_MEM_END to itself, writeable and closed to user mode, and nothing else if and only if the last sixteen words of its fourth table page were zero; all other directories unchanged |
| `Paging.NothingBeyondExactly` | p_mode/memory_management/kernel/paging.c:59-62 | what a new directory shows beyond the kernel's pages is exactly what the last sixteen slots of its uncleared fourth table held |
| `PagingRuns.RunsAreIsolated` | p_mode/memory_management/kernel/paging.c:52-151 | in every run whose operations find the kernel's pages unmoved in the directory they run under, pages mapped at different (directory, page) pairs never share a frame and none has a frame below KERNEL_MEM_END |
| `PagingRuns.SeesKernelExactly` | p_mode/memory_management/kernel/paging.c:30-31 | code that runs under a directory reaches every address of the kernel's memory, and so the bitmap and all tables, where it is if and only if no page of the kernel was mapped anew in that directory |
| `PagingRuns.RemapBlinds` | p_mode/memory_management/kernel/paging.c:82-101 | mapping a page of the bitmap anew in the directory the code runs under makes it read the bitmap from the frame just handed out; no further operation of a run is allowed there |
| `PagingRuns.RunSeesKernel` | p_mode/memory_management/kernel/paging.c:30-31 | in every run in memory each operation starts and ends with the kernel's memory where its code takes it to be |
| `PagingRuns.MemoryRuns` | p_mode/memory_management/kernel/paging.c:35-151 | every sequence of allocator steps in memory from init_paging on is a run, and memory represents its state throughout, the access rights of the kernel's tables included; kernel memory that was zero stays clean and nothing stale is ever shown |
| `PagingRuns.InitRepresents` | p_mode/memory_management/kernel/paging.c:35-50 | memory after init_paging represents the initial state of a run |
| `PagingRuns.AllocRefines` | p_mode/memory_management/kernel/paging.c:82-151 | what alloc_page does to memory is one allocation step of the abstract run |
| `PagingRuns.NewDirRefines` | p_mode/memory_management/kernel/paging.c:52-69 | what get_new_kernel_mapped_dir does to memory is one directory step of the abstract run |
| `PagingRuns.AllocKeepsClosed` | p_mode/memory_management/kernel/paging.c:82-151 | an allocation leaves no directory with a present entry that is neither allocated nor an identity entry, given a kernel table for the frame or a clean fresh page |
| `PagingRuns.NewDirKeepsClosed` | p_mode/memory_management/kernel/paging.c:52-69 | so does a new directory whose fourth table held nothing |
| `PagingRuns.KernelViewsAgree` | p_mode/memory_management/kernel/paging.c:43-64 | every directory translates a kernel page exactly as the kernel directory does unless alloc_page remapped it |
| `PagingRuns.TranslationsApart` | p_mode/memory_management/kernel/paging.c:117-151 | the translations in memory of two allocated pages reach different frames, none of them the kernel's |
| `PagingRuns.RightsSurvive` | p_mode/memory_management/kernel/paging.c:116-151 | over any stretch of a run in which it is not mapped again an allocated page keeps its write and user rights |
| `PagingRuns.RightsOfPage` | p_mode/memory_management/kernel/paging.c:130-147 | from its allocation until it is mapped again a page is writeable, and open to user mode, if and only if that was asked for and its table, unless made for it, was so |
| `PagingRuns.KernelStaysClosed` | p_mode/memory_management/kernel/paging.c:43-64 | in every run and directory a page of the kernel that was not mapped anew is writeable and closed to user mode |
| `PagingRuns.SharedTableCloses` | p_mode/memory_management/kernel/paging.c:59-64 | in every run and directory no page below 16 MiB is open to user mode, however it was allocated: it shares a table with the kernel's pages |
| `PagingRuns.NoForeignFrame` | p_mode/memory_management/kernel/paging.c:52-151 | in such memory no present translation of a process, however it came about, reaches a frame allocated for another page; one that was not allocated is an identity entry of the kernel's pages |
| `PagingRuns.OwnerWritesHarmless` | p_mode/memory_management/kernel/paging.c:30-31 | a process writing to its own frame reaches no directory, table or bitmap and changes no translation |
| `PagingRuns.AllocKeepsIdentity` | p_mode/memory_management/kernel/paging.c:103-114 | the kernel directory stays an identity map under allocations for processes and maps the new frame, given a table for the frame or a clean fresh page |
| `PagingRuns.PerformInit` | p_mode/memory_management/kernel/paging.c:35-50 | init_paging establishes the run's initial state, on zeroed kernel memory without stale entries |
| `PagingRuns.PerformAlloc` | p_mode/memory_management/kernel/paging.c:82-151 | the allocator performs the allocation steps of a run, with the rights asked for, or halts with every frame used, and writes to no frame beyond the kernel's; clean memory stays clean and closed |
| `PagingRuns.PerformNewDir` | p_mode/memory_management/kernel/paging.c:52-69 | the allocator performs the directory steps of a run and writes to no frame beyond the kernel's; clean memory stays clean and closed |
| `PagingRuns.PerformAll` | p_mode/memory_management/kernel/paging.c:35-151 | from init_paging on, any list of requests under the kernel directory is served in order as a run in memory, until one makes no sense, no frame is free or fewer than five pages are left for tables |
| `HeapIsolation.BytesApart` | p_mode/memory_management/kernel/paging.c:117-151 | two virtual bytes of allocated pages, of whichever processes, share a physical byte only if they are the same byte of the same process, and none is the kernel's |
| `HeapIsolation.GrowthMaps` | p_mode/memory_management/kernel/heap.c:118-134 | after the pages a malloc needs have been allocated at the heap's end, the grown heap is mapped to its last byte and every other page is as before |
| `HeapIsolation.GrowthInPlaceExactly` | p_mode/memory_management/kernel/heap.c:9-12 | growing page by page keeps every byte of a mapped heap at its physical address and maps all that is added if and only if no page is needed or the heap ends on a page end |
| `HeapIsolation.CallReady` | p_mode/memory_management/kernel/heap.c:118-134 | with those pages mapped the process still sees the heap it left, so the heap code's precondition holds |
| `HeapIsolation.StartCall` | p_mode/memory_management/kernel/heap.c:97-104 | initialise_heap, run on memory that agrees with the process's view of the heap, is a step of the history and leaves it agreeing |
| `HeapIsolation.HeapCall` | p_mode/memory_management/kernel/heap.c:118-140 | malloc, free or a write, run on memory that agrees with the process's view of the heap, is a step of the history and leaves it agreeing, so calls follow one another |
| `HeapIsolation.OthersKept` | p_mode/memory_management/kernel/heap.c:118-140 | no step, neither a mapping nor a heap operation, changes or moves a physical byte of any other process's heap |
| `HeapIsolation.AlwaysSound` | p_mode/memory_management/kernel/heap.c:9-12 | in every history every heap is mapped to its last byte, ends on a page end and is tiled by its headers in physical memory |
| `HeapIsolation.HeapsApart` | p_mode/memory_management/kernel/heap.c:9-12 | in every history the heaps of all processes have no physical byte in common |
| `HeapIsolation.BytesSurvive` | p_mode/memory_management/kernel/heap.c:118-140 | in every history an allocated byte keeps its physical address and value until its own process writes it, whatever any process requests, frees, maps or writes |
| `OneMemory.TranslateIsPhys` | p_mode/memory_management/kernel/paging.c:117-151 | tables that represent the state translate every allocated address to the physical byte the state says |
| `PhysicalMemory.WordIsField` | p_mode/memory_management/kernel/paging.c:132-147 | a word of the page tables is the little-endian field of the four bytes of physical memory it lies in |
| `OneMemory.GrowthRights` | p_mode/memory_management/kernel/heap.c:9-12 | in every history a page a heap grows into is writeable if and only if its table is or was made for it, and open to user mode if and only if, besides, the heap is not the kernel directory's and that table, if it was there, is open |
| `OneMemory.AlwaysTables` | p_mode/memory_management/kernel/paging.c:35-151 | in every history the directories, tables and bitmap in the physical memory that also holds the heaps are those of the state, whatever is allocated, freed or written |
| `OneMemory.HeapTranslated` | p_mode/memory_management/kernel/paging.c:117-151 | in every history those tables translate each address of each heap, to the physical byte the process sees there |
| `OneMemory.ActsSeeKernel` | p_mode/memory_management/kernel/paging.c:30-31 | in every history each act finds the kernel's memory where its code takes it to be |
| `Scheduling.NextSlot` | p_mode/processes/scheduler.c:52-63 | the nearest live slot ahead in cyclic order, the current slot if none is live |
| `Scheduling.FreeSlot` | p_mode/processes/process_list.c:18-19 | the first empty slot of the table |
| `Scheduling.StepWellFormed` | p_mode/processes/process_list.c:17-36 | every step keeps each live process's pid equal to its slot |
| `Scheduling.EveryRun` | p_mode/drivers/timer/timer.c:15-21 | every sequence of interrupts, additions and removals has its run from every well-formed table |
| `Fairness.RoundRobin` | p_mode/processes/scheduler.c:50-66 | of as many consecutive calls of start_next_process as there are live processes, exactly one dispatches each, and which one is known |
| `Fairness.SwitchKeepsLive` | p_mode/processes/scheduler.c:56-62 | a call goes to the next live slot and changes no liveness |
| `Fairness.SwitchOrder` | p_mode/processes/scheduler.c:50-66 | in every run, while the same slots are occupied, the switch that dispatches a process is the one whose number is its place ahead |
| `Fairness.OncePerRound` | p_mode/processes/scheduler.c:50-66 | every stretch of n switches with the same n slots occupied dispatches each live process exactly once |
| `Fairness.Fair` | p_mode/processes/scheduler.c:50-66 | a process that stays live is dispatched within as many switches as its slot is ahead of the running one, whatever is added or removed |
| `Fairness.Countdown` | p_mode/drivers/timer/timer.c:15-21 | the handler switches exactly when one tick is left, the tick counter wrapping at 2^32 |
| `Fairness.SliceLengths` | p_mode/processes/scheduler.c:13-26 | at 100 Hz priorities 0 to 3 run 10, 5, 2 and 1 ticks; lower priorities round to zero ticks and run until the counter wraps |
| `Fairness.SliceMillis` | p_mode/processes/scheduler.c:13-26 | at 1000 Hz the slice after a due tick is 100, 50, 25 or 10 ticks for priorities 0 to 3 and 5 for the others, by the priority of the process then running |
| `Fairness.InactiveSlice` | p_mode/processes/scheduler.c:65 | a due tick of an inactive scheduler at 100 Hz changes no process, returns the interrupted registers and starts a slice of 5 ticks |
| `Fairness.SliceIsExact` | p_mode/drivers/timer/timer.c:15-21 | in every run no interrupt switches before the slice is used up, and the one that uses it up does |
| `Fairness.AlwaysPrompt` | p_mode/drivers/timer/timer.c:15-21 | in every run with priorities 0 to 3 the tick count is below the slice at every moment, so no slice waits for the counter to wrap |
| `Fairness.WaitBound` | p_mode/drivers/timer/timer.c:15-21 | a process that stays live is dispatched within ten ticks per slot of the table |
| `Contexts.ContextsKept` | p_mode/processes/scheduler.c:50-66 | every slot always holds the registers its process was last stopped or added with, if and only if no switch saves, into a slot refilled while its removed process was running, registers other than the newcomer's |
| `Contexts.SafeRemovals` | p_mode/processes/scheduler.c:57-61 | removing only processes that are not running is enough for that |
| `Contexts.DispatchRestores` | p_mode/processes/scheduler.c:56-61 | each dispatch goes to a live process, loads those registers, activates the page directory it was added with and ends the first run |
| `Contexts.InterruptReturns` | p_mode/drivers/timer/timer.c:15-21 | in every run an interrupt returns the registers it interrupted unless it dispatches, and then those the process it goes to was last stopped or added with |
| `Contexts.RecordsKept` | p_mode/processes/process_list.c:17-27 | in every run every slot holds the directory, priority, heap boundary and heap size its process was last added with; no other event changes them |
| `Contexts.AddedWhole` | p_mode/processes/process_list.c:17-27 | a process is added with its whole record, its pid being its slot, and no other slot changes |
| `Contexts.RefillLosesContext` | p_mode/processes/scheduler.c:57 | once a removed running process's slot is refilled, the next switch overwrites the newcomer's registers |
| `Scheduler.Kernel.constructor` | p_mode/processes/scheduler.c:28-46 | all slots empty but the kernel's, which is set up to start its function with a 40 ms slice |
| `Scheduler.Kernel.AddProcess` | p_mode/processes/process_list.c:17-27 | fills the first empty slot with the whole record and returns it, or returns -1 with the table unchanged; `AddedWhole` and `RecordsKept` say what is stored |
| `Scheduler.Kernel.RemoveProcess` | p_mode/processes/process_list.c:34-36 | empties the slots holding that pid and nothing else |
| `Scheduler.Kernel.StartNextProcess` | p_mode/processes/scheduler.c:50-66 | the search ends within one turn of the table and performs the machine's dispatch; the slice is that of the process then running, 50 ms if inactive, as `SliceMillis` and `InactiveSlice` read it |
| `Scheduler.Kernel.TimerHandler` | p_mode/drivers/timer/timer.c:15-21 | one interrupt is one tick of the machine; what it returns is stated over runs by `InterruptReturns` |
| `ScreenModel.WindowOnPage` | p_mode/drivers/screen/screen.c:42-85 | after any characters and cursor moves the screen is 25 rows of the unbounded page on which the same happened without scrolling |
| `ScreenModel.TopCountsScrolls` | p_mode/drivers/screen/screen.c:146-161 | the first row in view is the number of scrolls so far |
| `ScreenModel.Step` | p_mode/drivers/screen/screen.c:205-223 | the cursor never leaves the 25 by 80 screen |
| `ScreenModel.StepShows` | p_mode/drivers/screen/screen.c:42-85 | each event keeps the screen a window on the page |
| `TextLaws.TextOnPage` | p_mode/drivers/screen/screen.c:73-80 | text typed from the cursor on stands there character by character, gray on cyan, row after row, and nothing else on the page changes |
| `TextLaws.TextOnScreen` | p_mode/drivers/screen/screen.c:42-85 | the same on the screen: every character not scrolled away is in its cell, as many rows up as were scrolled |
| `TextLaws.NumberReadsBack` | p_mode/drivers/screen/screen.c:94-137 | a number printed anywhere on the screen, unless it starts in a row scrolled away, reads off the cells as that number |
| `TextLaws.LineOnPage` | p_mode/drivers/screen/screen.c:45-48 | a line that fits stands in its row, and the cursor goes to the start of the next |
| `TextLaws.BackspaceErases` | p_mode/drivers/screen/screen.c:52-63 | backspace takes back the character typed, across the end of a row too, and leaves a space |
| `TextLaws.BackspaceAtTop` | p_mode/drivers/screen/screen.c:52-63 | at the top left of the view it does nothing |
| `TextLaws.BlankShowsSpace` | p_mode/drivers/screen/screen.c:146-161 | a blank cell shows a space |
| `TextLaws.ReturnRetypes` | p_mode/drivers/screen/screen.c:49-51 | after a carriage return the row can be typed over itself with no change |
| `TextLaws.LeftAndDelete` | p_mode/drivers/screen/screen.c:70-72 | going left and deleting is a backspace |
| `TextLaws.TabStops` | p_mode/drivers/screen/screen.c:64-69 | a tab writes nothing and stops one past the next multiple of eight |
| `TextLaws.RightRetypes` | p_mode/drivers/screen/screen.c:215-218 | the right key moves as typing what the cell shows would |
| `TextLaws.DownReturns` | p_mode/drivers/screen/screen.c:210-213 | above the last row the down key and a carriage return are a new line |
| `TextLaws.KeysUndo` | p_mode/drivers/screen/screen.c:205-223 | up and left take back down and right; at an edge a key does nothing |
| `Console.Terminal.constructor` | p_mode/drivers/screen/screen.c:17-28 | a blank screen with the cursor at the top left |
| `Console.Terminal.Putc` | p_mode/drivers/screen/screen.c:42-85 | video memory and cursor afterwards are those of the screen model, every write within the 2000 cells; what then stands on the screen is stated by `TextOnScreen` |
| `Console.Terminal.NextTab` | p_mode/drivers/screen/screen.c:64-67 | the tab loop ends one past a multiple of eight, the first above where it started |
| `Console.Terminal.ScrollIfNeeded` | p_mode/drivers/screen/screen.c:146-161 | rows move up in place until the cursor is on the screen |
| `Console.Terminal.Puts` | p_mode/drivers/screen/screen.c:87-92 | the characters are sent one after the other |
| `Console.Terminal.Puti` | p_mode/drivers/screen/screen.c:94-109 | sends the decimal numeral |
| `Console.Terminal.Puth` | p_mode/drivers/screen/screen.c:111-137 | sends 0x and the hexadecimal numeral |
| `Console.Terminal.MoveCursorUp` | p_mode/drivers/screen/screen.c:205-208 | one row up unless at the top |
| `Console.Terminal.MoveCursorDown` | p_mode/drivers/screen/screen.c:210-213 | one row down unless at the bottom |
| `Console.Terminal.MoveCursorRight` | p_mode/drivers/screen/screen.c:215-218 | one column right unless at the edge |
| `Console.Terminal.MoveCursorLeft` | p_mode/drivers/screen/screen.c:220-223 | one column left unless at the edge |
| `Numerals.Decimal` | p_mode/drivers/screen/screen.c:94-109 | the loops of puti end and emit the ordinary decimal numeral |
| `Numerals.Hexadecimal` | p_mode/drivers/screen/screen.c:114-136 | the loops of puth end and emit the ordinary hexadecimal numeral |
| `Numerals.RoundTrip` | p_mode/drivers/screen/screen.c:94-137 | the numeral of any number reads back as that number |
| `Numerals.NoLeadingZero` | p_mode/drivers/screen/screen.c:94-137 | a numeral starts with zero only if it is the numeral of zero, and then has one digit |
| `ElfLoader.Memcpy` | p_mode/elf_parse.c:47-50 | the forward byte copy, also on overlapping ranges and across the end of the address space |
| `ElfLoader.DecodeReads` | include/elf.h:59-68 | decoding the fields of a program header, laid out in order and little-endian, yields its type, file offset, physical address and sizes |
| `ElfLoader.FileHeaderReads` | include/elf.h:27-42 | in a buffer that holds an encoded file header the first byte is its first identification byte, and the program-header table and its length are where e_phoff and e_phnum say |
| `ElfLoader.HeadersRead` | p_mode/elf_parse.c:279-291 | the headers found in an encoded image are those that were encoded, for every list of them |
| `ElfLoader.ParseElf` | p_mode/elf_parse.c:279-298 | refuses an image without the first magic byte; otherwise loads the headers in order, each read when its turn comes |
| `ElfLoader.SegmentLoads` | p_mode/elf_parse.c:290-297 | one segment lands in place and no byte outside its target changes |
| `ElfLoader.ListLoads` | p_mode/elf_parse.c:288-298 | a list of well-placed segments lands in place, all other memory and the buffer unchanged |
| `ElfLoader.TableLoads` | p_mode/elf_parse.c:286-298 | reading headers while loading is the same as reading them all at the start |
| `ElfLoader.ImageLoads` | p_mode/elf_parse.c:286-298 | an encoded image that is well placed is accepted and loaded: for each program header but the null ones the file bytes stand at its physical address followed by zeros up to its memory size, all other memory unchanged |

## Left out

- Paging.Pager.FreePage: as it frees frame 0 and never the frame it names, runs of the allocator do not contain it.
- ProcessHeap.Heap.Malloc: an unaligned request that would cut a block with a payload below six bytes is excluded by `SplitSafe`, because the wrapped guard of divide_block then writes a header over the following block; requests of six bytes or more are never excluded.
- ProcessHeap.Heap.Malloc: an aligned request is excluded by `NoTrap` exactly if its search never stops or settles outside a block; `AlignedMallocReturns` proves both directions.
- ProcessHeap.Heap.Malloc: a request that has to grow a heap that ends inside a page is excluded by `GrowsOnPage`, because alloc_page then puts another frame under the bytes before the heap's end; `GrowthInPlaceExactly` proves both directions.
- ProcessHeap.Heap.Malloc: the grown heap must end below 4 GiB; what the code does once addresses wrap is not modelled.
- ProcessHeap.Heap.Malloc: the class does not map the page a heap grows into; `HeapIsolation` adds the mapping, all pages of one call before its writes. As the heap ends on a page end, allocating writes to the kernel's memory only and the heap's writes reach none of its structures, so the order makes no difference.
- ProcessHeap.Heap.Free: only live pointers, the code itself checks nothing.
- HeapIsolation.BytesSurvive: histories do not map a page by hand inside a process's own heap, which would put another frame under it, nor run code under a directory in which a page of the kernel was mapped anew; a heap starts on pages mapped before, with its end on a page end.
- PagingRuns.RunsAreIsolated: runs do not contain operations under a directory in which a page of the kernel was mapped anew, nor one that does so to its own directory; the translation cache is not modelled.
- Paging.Pager.AllocPage: kernel memory for the tables that are needed must not be exhausted. After init_scheduler the bump allocator stands off a page boundary until the next aligned request; what an unaligned table then overwrites is the kernel's other data, which is not modelled, and the further low bits it leaves in its directory entry have no effect here.
- Paging.Pager.constructor: installing the directory, the fault handler and turning paging on are hardware steps.
- Scheduler.Kernel.constructor: tables of up to 255 slots, the range of the initialising loop's counter; the source has 32.
- Scheduler.Kernel.TimerHandler: the frequency is a parameter, set_timer_freq programs the hardware.
- Console.Terminal.Putc: the hardware cursor is not modelled, and a character cell is one 16-bit value.
- Console.Terminal.Puti: here and in Puth the digits are computed by the printing loops and then sent in the same order, not interleaved with the sending.
- putb, whose loop never ends, and printf with its variable arguments.
- ElfLoader.ParseElf: reading the sectors from disk and probing the PCI bus come before and are left out.
- PCI, UHCI, keyboard, interrupt tables, task state segment, boot assembly and linker scripts: hardware plumbing.
- page_fault_handler, print_dir, print_heap_summuary and show_all_procs: diagnostics.
