# VoidOS in Dafny

A model of the parts of VoidOS that carry state invariants, with proofs about every run of
them: the user-space heap, physical frames, page tables and address spaces, the ELF loader,
fork and execve, copies to and from user memory, the process table and scheduler, IPC and
service names, and VFS paths and descriptors.  `dafny verify dfyconfig.toml` checks all of it.

## The parts

**Heap** (`HeapLayout`, `HeapSteps`, `FreeList`, `HeapBytes`, `Heap`, `HeapRuns`).  The arena is an array of
16-byte cells that headers, footers, free-list links and payloads share; a pointer is a cell
number and 0 is NULL.  `Core` says that blocks tile the arena, the doubly linked list holds each
free block once, no two free blocks touch, the PREV bit and the footers mirror the neighbours.
While a block is between lists (limbo) or its header is stale, `Core` says so for that one
block, which is how the intermediate states of free, grow and shrink are described.  The
client's view is `Contents()`: a map from live blocks to their cells.  `FreeList` is the allocator on
values, blocks and list order only; the methods on the arena are proved to do exactly that.

**Address spaces** (`Frames`, `PageTable`, `Ownership`, `AddressSpaces`, `Teardown`, `Records`,
`Costs`, `Fork`, `MmapSearch`, `UserMem`, `UserCalls`, `Effects`, `MemoryRuns`).  The frame bitmap is an array of bytes.  Memory is a sequence of
frames, each a table of entries or data bytes.  `Leaf` is the flat map from pages to entries that
the four-level tree (section 4.5 of the Intel SDM, volume 3A) stands for.  A ghost map from
frames to owners records for each frame in use which space it belongs to and where in that
space's tree it sits; `Inv` ties it to the page tables and to `umap[]`.  `Backed` says that every
mapped page is recorded with its frame, which every call keeps; `Agrees` says that records and page
tables match, which two calls break.  `Costs` counts the page tables a set of pages needs, which says
exactly when fork, brk, mmap and exec find enough frames.  `Effects` says on values what each event
does, and `MemoryRuns` serves arbitrary sequences of create, map, brk,
mmap, munmap, fork, copies, exec, exit and destroy over any number of spaces.

**Programs** (`UserBytes`, `UserCopy`, `ElfImage`, `LoadPlan`, `ElfLoad`, `Startup`, `Overlay`, `Exec`).  User memory is read as
bytes at addresses (`ByteAt`).  The loader follows "Program Header" and "Program Loading" in
chapter 5 of the System V gABI.  `LoadPlan` is the sequence of pages a load visits and the status it
ends with; `Startup` is the initial stack frame as the dynamic linker reads it.  `Overlay` is about a program and its dynamic linker in one space.

**Processes and messages** (`Scheduler`, `Processes`, `Mailbox`, `Services`).  Each system call is
one step, since entry masks interrupts.  `Run` methods serve arbitrary sequences of steps, here and in
the other parts; each is proved to be a chain of steps of a step relation on values.

**Files** (`Paths`, `Files`).  The path resolver and the printer behind chdir, and reference
counts of open files over all descriptor tables.

## Where the code does less than its comments say

Each of these is stated with its exact condition.

- A shrinking `realloc` writes a footer into the last cell of the block that stays allocated.
  The requested bytes survive for all contents exactly when the block is not split or at most
  16 bytes are asked for: `HeapRuns.ShrinkKeepsIff`.
- A second free of a block is reported exactly when the block was not absorbed into a free left
  neighbour: `Heap.Arena.HeapFree`.
- The frame counter after boot is too high by the frames counted in more than one usable region, and
  too low by one if the bitmap ends in a partial frame above the last whole one whose bit lies behind
  the bitmap and is clear.  It is right exactly when the two cancel: `Frames.Init`, with instances in
  `Frames.CountedTwice`, `Frames.CountedShort` and `Frames.CountedRight`.
- `vmm_virt_to_phys` cuts huge entries to 48 address bits and `vmm_get_pte` does not.  They agree on a
  page exactly when the walk ends at an ordinary entry, finds none, or finds a huge one below 2^48:
  `PageTable.WalksAgreeIff`, with an instance in `PageTable.WalksDiffer`.
- Records and page tables agree after every call except two: a mapping over a page that is mapped,
  and a failed mmap that had mapped pages (`MemoryRuns.Serve`).  The break need not be aligned when it
  grows, so two growths within one page map it twice: `UserCalls.TwoBreaks`.  The rollback of mmap
  unmaps pages and keeps their records and frames; a request for more pages than `umap[]` holds does
  so whenever its first page can be had: `UserCalls.LargeMmap`.
- Fork copies records, not pages.  The child has the parent's pages and bytes exactly when no record
  of the parent is stale and the last record of each page has its bytes: `Fork.ForkSpace`.
- The subtraction in `um_mmap_reserve` can wrap.  Over all page tables with at most K pages the
  search is right exactly when the length is at most the rounded break or K + 1 windows fit below
  the stack: `MmapSearch.ReserveCorrectIff`.  A process has at most 256 pages:
  `UserMem.ReserveInProcess`.
- For ET_DYN images the end of a segment can wrap past 2^64 and be accepted.  An accepted table
  describes a proper layout exactly when no end wraps: `ElfImage.LayoutIff`, with an instance in
  `ElfImage.WrapAccepted`.
- The linker is loaded over the program.  Both images read back exactly when they ask for the same
  bytes wherever they overlap: `Overlay.BothFilledIff`.  That is so for all accepted images with the
  same headers exactly when what they ask for there is settled by the headers and the same:
  `Overlay.AlwaysFitIff`.  Neither disjoint segments (`Overlay.SharedZeroes`) nor disjoint file bytes
  (`Overlay.SharedHeader`) are needed; for images that load nothing of their headers the latter are:
  `Overlay.NoConflictFits`.  Two accepted images that clash are in `Overlay.OverlapAccepted`.
- A new endpoint is reached by its handle exactly when no live endpoint of the same owner and number
  stands before the first released row: `Services.Ipc.Create`.  Create, close, create gives a handle
  that leads to the closed endpoint: `Services.Shadowing`.
- Names that lead to open endpoints keep doing so under every call except two: closing an endpoint
  that has two names, since only the first is dropped, and registering through a handle whose
  endpoint is closed: `Services.Serve`, with instances in `Services.StillNamedExample` and
  `Services.Reregistering`.

## Model

| member | source | states |
|---|---|---|
| `HeapLayout.LeftNeighbour` | userland/libc/malloc.c:37-60 | in a tiling every block but the first has exactly one block ending where it starts |
| `HeapLayout.CoveringBlock` | userland/libc/malloc.c:37-60 | every cell of the arena lies in exactly one block |
| `HeapLayout.UnlinkedLinks` | userland/libc/malloc.c:78-83 | unlinking node i leaves a doubly linked list of the others in order |
| `HeapSteps.InsertedCore` | userland/libc/malloc.c:88-102 | tagging and linking a free block ends its limbo and restores the whole invariant |
| `HeapSteps.AbsorbedCore` | userland/libc/malloc.c:109-117 | merging a block with a free neighbour, on either side, keeps the invariant |
| `HeapSteps.CutCore` | userland/libc/malloc.c:204-232 | splitting a free block into an allocated front and a free rest keeps the invariant |
| `HeapSteps.TakenCore` | userland/libc/malloc.c:204-232 | taking a free block whole keeps the invariant |
| `HeapSteps.GrownTopCore` | userland/libc/malloc.c:147-184 | lengthening a free top block keeps the invariant |
| `HeapSteps.GrownFreshCore` | userland/libc/malloc.c:147-184 | a fresh block at the top keeps the invariant |
| `Heap.SizeToNeed` | userland/libc/malloc.c:194-199 | the least 16-multiple of at least 48 that holds header and payload, 0 exactly on overflow |
| `Heap.Arena.FlUnlink` | userland/libc/malloc.c:78-83 | the list loses exactly that node; no cell outside the list changes |
| `Heap.Arena.FlInsert` | userland/libc/malloc.c:88-102 | the header, footer, links and the neighbour's PREV bit are set, and no other cell |
| `Heap.Arena.InsertFree` | userland/libc/malloc.c:109-117 | a block in limbo is coalesced to the right and put at the head of the list; all payloads keep their cells |
| `Heap.Arena.CutFirstFit` | userland/libc/malloc.c:204-232 | returns the first listed block that fits, NULL exactly when none does; the blocks and the list are then those of `FreeList.Fitted`; one block becomes live, no other payload changes |
| `Heap.Arena.HeapFree` | userland/libc/malloc.c:267-296 | succeeds exactly on a live block, which goes to the head of the list joined with its free neighbours; all other payloads keep their cells; a second free is reported exactly when the left neighbour was not free |
| `HeapSteps.PrevIff` | userland/libc/malloc.c:37-60 | the PREV bit of a block says exactly whether a listed block ends where it starts |
| `Heap.Arena.TopFreeBlock` | userland/libc/malloc.c:121-128 | finds the free block that ends at the top, if there is one |
| `Heap.Arena.ArenaInit` | userland/libc/malloc.c:135-143 | succeeds exactly when already set up or the break query does |
| `Heap.ChunkFor` | userland/libc/malloc.c:148-149 | the least whole number of pages that covers the request; one page when the 64-bit rounding wraps |
| `Heap.Arena.ArenaGrow` | userland/libc/malloc.c:147-184 | succeeds exactly when sbrk does; the break then moves by the chunk, which becomes part of the free block that ends at the old break or a block of its own; when a listed block fits afterwards |
| `Heap.Arena.HeapAlloc` | userland/libc/malloc.c:255-265 | fails exactly on overflow, without an arena, or when no block fits and the growth fails or is too small; otherwise one new private buffer, just as large as needed, from the first listed block that fits, and only without one from the moved break |
| `Heap.Arena.Malloc` | userland/libc/malloc.c:300-307 | below the threshold the request is granted exactly when a block fits or the break moves; one new private buffer; the break moves only when no listed block fits, by the chunk |
| `Heap.Arena.Free` | userland/libc/malloc.c:309-319 | removes exactly that buffer; every other buffer keeps its contents; the break stays; when a second free is reported |
| `Heap.Arena.Calloc` | userland/libc/malloc.c:323-330 | NULL exactly on overflow of the product or when malloc refuses; otherwise a buffer whose requested bytes are zero |
| `Heap.Arena.Realloc` | userland/libc/malloc.c:332-368 | growth keeps every old cell and fails exactly when malloc refuses; shrink in place; failure changes nothing; other buffers untouched; blocks, list and break after each case |
| `Heap.Arena.Store` | userland/libc/malloc.c:300-319 | a client store into one buffer changes that buffer only and cannot damage the heap |
| `Heap.Arena.SelfCheck` | userland/libc/malloc.c:374-395 | returns 0 in every valid heap, -1 exactly when the list exceeds its guard |
| `HeapRuns.Run` | userland/libc/malloc.c:300-395 | every sequence of requests on live pointers is a chain of steps that fix result, buffers, blocks, list order and break; in every state held pointers are live and distinct; at the end the invariant holds and the self-check returns 0 |
| `HeapRuns.Serve` | userland/libc/malloc.c:300-368 | each request does exactly its step |
| `HeapRuns.WritesDoNotMatter` | userland/libc/malloc.c:204-296 | two runs that differ only in what clients write into their buffers hand out the same pointers from the same blocks |
| `FreeList.CoreCoalesced` | userland/libc/malloc.c:104-117 | between operations no free block lies next to another and none is listed twice |
| `FreeList.TakenAndFreed` | userland/libc/malloc.c:204-296 | a block that is cut, split or not, and freed at once leaves the same blocks and the same list but for its place in front |
| `FreeList.LastInFirstOut` | userland/libc/malloc.c:204-296 | the block just freed is handed out next, to every request it is large enough for |
| `FreeList.FirstSays` | userland/libc/malloc.c:204-209 | the search stops at a block that fits, and all before it are too small |
| `HeapRuns.ShrinkKeepsIff` | userland/libc/malloc.c:332-368 | an in-place shrink keeps the requested bytes for all contents iff no split happens or size is at most 16 |
| `Frames.Pmm.AllocFrame` | kernel/mm/pmm.c:110-127 | the lowest free frame, 0 exactly when none is free; the count stays equal to the clear bits |
| `Frames.Pmm.FreeFrame` | kernel/mm/pmm.c:130-138 | adds the frame to the free set; out-of-range and already free frames are ignored |
| `Frames.Init` | kernel/mm/pmm.c:33-107 | for every memory map: halts exactly when the first region with room for the bitmap starts at 0 or there is none; the free set is the usable frames less bitmap and frame 0; the exact error of the counter, and that it is right iff frames counted twice and frames spilled are as many |
| `Frames.SurplusIff` | kernel/mm/pmm.c:70-86 | nothing is counted twice iff no two usable regions share a frame |
| `Frames.CountedTwice` | kernel/mm/pmm.c:70-86 | a map for which the counter is one too high |
| `Frames.CountedShort` | kernel/mm/pmm.c:88-96 | a map for which the counter is one too low |
| `Frames.CountedRight` | kernel/mm/pmm.c:70-96 | a map for which both happen and the counter is right |
| `PageTable.PageRoundTrip` | kernel/mm/vmm.c:18-24 | table indices determine the page number below the canonical limit |
| `PageTable.WalksReadLeaf` | kernel/mm/vmm.c:95-140 | without huge entries both walks read the flat map |
| `PageTable.WalkGives` | kernel/mm/vmm.c:95-140 | on every page of every tree the address is 0 without an entry and otherwise the place of the page in the aligned run of frames behind the entry, the frame of a huge entry cut to 36 bits |
| `PageTable.WalksAgreeIff` | kernel/mm/vmm.c:95-140 | the walks agree on a page iff it stops at an ordinary entry, at none, or at a huge one below 2^48 |
| `PageTable.WalksDiffer` | kernel/mm/vmm.c:95-140 | a huge entry for which they differ |
| `MemoryRuns.FramesDistinct` | kernel/proc/process.c:36-52 | PML4s, tables and recorded pages of all spaces lie in pairwise distinct frames, all marked in use |
| `MemoryRuns.Serve` | kernel/proc/process.c:36-204 | each of eleven events has exactly its effect (`Effects.Effect`): when it succeeds, which pages, records, bytes and free frames there are afterwards; it leaves tables, records, mappings and bytes of every space it does not name as they were, keeps every mapped page recorded, and keeps records and page tables in agreement iff it neither maps over a mapped page nor rolls back a mapping |
| `MemoryRuns.Run` | kernel/proc/process.c:36-204 | every run of those events is a chain of such steps; in every state of it all frames are distinct and in use and exactly the frames no space uses are free; at the end every space is private |
| `MemoryRuns.AgreeThroughout` | kernel/mm/user_mem.c:1-8 | records and page tables of all spaces agree as long as no event makes them part |
| `MemoryRuns.IsolatedThroughout` | kernel/proc/process.c:36-204 | a space that no event of a stretch of a run names has the same records, mappings and bytes after it |
| `MemoryRuns.FreeAgain` | kernel/proc/process.c:36-204 | once all spaces that came up after some step of a run are gone and the older ones were left alone, exactly the same frames are free as before |
| `Effects.OwnedFrames` | kernel/proc/process.c:171-204 | the frames a space owns are those of its records and of its tables |
| `Records.MappedBacked` | kernel/proc/process.c:127-146 | a page mapped anew, mapped before or not, is backed by its new record |
| `Records.MappedAgreesIff` | kernel/proc/process.c:127-146 | agreement survives a mapping iff the page was not mapped |
| `Records.UnmappedBacked` | kernel/syscall/syscall.c:117-123 | taking a page away while its record stays keeps every mapped page recorded |
| `Records.ReleasedBacked` | kernel/mm/user_mem.c:28-38 | so does a release, with double records of a page too |
| `Records.ReleasedAgrees` | kernel/mm/user_mem.c:28-38 | a release keeps agreement |
| `Ownership.AddedTable` | kernel/mm/vmm.c:27-44 | hanging an empty table in keeps tree shape, ownership and every lookup of every space |
| `Ownership.LeafWritten` | kernel/mm/vmm.c:47-92 | writing a leaf entry changes that page's lookup in that space only |
| `Ownership.RecordRemoved` | kernel/mm/user_mem.c:20-23 | swap-removal of a record disowns exactly its frame |
| `AddressSpaces.Machine.WalkOrCreate` | kernel/mm/vmm.c:37-44 | the next-level table is there afterwards, or memory is out and nothing changed |
| `AddressSpaces.Machine.MapPage` | kernel/mm/vmm.c:47-67 | succeeds exactly when there are frames for the missing tables, and then changes exactly the lookup of that page and adds exactly the tables on its way; otherwise no lookup changes |
| `AddressSpaces.Machine.UnmapPage` | kernel/mm/vmm.c:70-92 | clears exactly that page and returns its frame, or 0 |
| `AddressSpaces.Machine.CreateSpace` | kernel/proc/process.c:36-52 | an empty lower half on a free frame, kernel half shared, all other spaces unchanged |
| `AddressSpaces.Machine.MapUser` | kernel/proc/process.c:127-146 | refuses exactly the kernel half, a full record list and missing frames; otherwise maps and records the frame |
| `AddressSpaces.Machine.AllocUserPage` | kernel/proc/process.c:149-161 | a zeroed page on a previously free frame, exactly when there is room and frames for page and tables; otherwise no lookup changes |
| `Teardown.ReleaseAll` | kernel/proc/process.c:680-688 | exactly the data frames of the space are freed and its pages unmapped |
| `Teardown.DestroySpace` | kernel/proc/process.c:171-204 | frees exactly the frames the space owned: PML4, tables and pages; no other space notices |
| `Fork.ForkSpace` | kernel/proc/process.c:408-516 | succeeds exactly when the rest does and there are frames for the PML4, the records and the distinct tables their pages need; success: parent unchanged, records copied on frames that were free; the child has the parent's pages, bytes, WRITE and NX iff the parent's records are good for it, and agrees with its records iff no page is recorded twice; failure at any point restores spaces, owners and free set |
| `Costs.MissingIs` | kernel/mm/vmm.c:37-44 | the tables a page still lacks are those on its way that no page so far needs |
| `Costs.CostMore` | kernel/proc/process.c:424-455 | one more page costs its frame and the tables no page so far needs |
| `Costs.LackingNext` | kernel/mm/vmm.c:37-67 | in a space with tables already, the tables a set of pages lacks grow by what the next page misses |
| `Fork.SamePagesIff` | kernel/proc/process.c:424-455 | same pages and bytes iff no record is stale and the last record of each page has its bytes |
| `Fork.AgreesCopyable` | kernel/proc/process.c:424-455 | records that agree with the page tables are good for a copy |
| `Fork.StaleNotCopyable` | kernel/proc/process.c:424-455 | a stale record gives the child a page the parent does not have |
| `UserMem.ReleaseFrom` | kernel/mm/user_mem.c:28-38 | exactly the records from the start address up to the mmap top go, and their frames are free |
| `UserMem.FewPages` | kernel/include/proc/process.h:84 | a space whose mapped pages are recorded, as all are after every run, has at most 256 pages |
| `UserMem.ReserveInProcess` | kernel/mm/user_mem.c:105-136 | for every process the search is right when the length is at most the rounded break or 257 windows fit below the stack |
| `UserCalls.MapRun` | kernel/mm/user_mem.c:50-56 | maps pages in order, zeroed and with the flags asked for, exactly as far as `umap[]`, the user half and the frames for pages and missing tables go; agreement survives iff none of them was mapped |
| `UserCalls.SetBreak` | kernel/mm/user_mem.c:63-80 | growth succeeds exactly when there is room for all its pages; it maps one page per step from the break, aligned or not, and keeps what it mapped on failure; shrinking releases exactly the recorded pages from the rounded break up to the stack; when agreement survives |
| `UserCalls.StepPage` | kernel/mm/user_mem.c:50-56 | which pages the growth loop comes to, and how many |
| `UserCalls.Munmap` | kernel/syscall/syscall.c:135-145 | refuses exactly bad arguments, with the 64-bit wrap of the rounding; then exactly the recorded pages from the address up to the stack are unmapped and their frames free |
| `UserCalls.Mmap` | kernel/syscall/syscall.c:88-125 | succeeds exactly when a place is found and all pages can be had; maps exactly the chosen pages, none of which was mapped, zeroed; failure leaves every mapping as it was, and keeps stale records iff a place was found and its first page could be had |
| `UserCalls.TwoBreaks` | kernel/mm/user_mem.c:50-56 | two growths within one page leave two records of it |
| `UserCalls.LargeMmap` | kernel/syscall/syscall.c:115-123 | a failed mmap leaves records without pages |
| `MmapSearch.RangeClear` | kernel/mm/user_mem.c:90-96 | true exactly when no page of the range is mapped |
| `MmapSearch.Reserve` | kernel/mm/user_mem.c:105-136 | the loops compute the search function, including its 64-bit wrap |
| `MmapSearch.SearchFinds` | kernel/mm/user_mem.c:105-136 | the skipping search returns the highest free window when one exists or the length is at most the floor |
| `MmapSearch.SearchFew` | kernel/mm/user_mem.c:105-136 | with few mapped pages to pass and room below for as many windows the search cannot wrap and is right |
| `MmapSearch.TrapWraps` | kernel/mm/user_mem.c:105-136 | with a page in the way of each window the search wraps to an address far above the limit |
| `MmapSearch.TrapCaught` | kernel/mm/user_mem.c:105-136 | when K + 1 windows do not fit, a table of at most K pages gets a wrong answer |
| `MmapSearch.ReserveCorrectIff` | kernel/mm/user_mem.c:105-136 | right for all page tables of at most K pages iff the length is at most the rounded break or K + 1 windows fit below the stack |
| `UserBytes.BackedPrivate` | kernel/proc/process.c:127-161 | a space whose mapped pages are recorded has each page in a frame of its own |
| `UserBytes.Poke` | kernel/syscall/syscall.c:243-263 | a store through the frame behind a page changes exactly those bytes of that space |
| `UserCopy.UserRangeOk` | kernel/syscall/syscall.c:196-213 | the page loop accepts exactly the nonempty ranges whose every byte is accessible |
| `UserCopy.CopyFromUser` | kernel/syscall/syscall.c:218-238 | fills the buffer with exactly the user bytes, or leaves it alone |
| `UserCopy.CopyToUser` | kernel/syscall/syscall.c:243-263 | all or nothing: false writes no byte, true changes exactly the target bytes, in no other space |
| `UserCopy.WriteThenRead` | kernel/syscall/syscall.c:218-263 | what was written is read back |
| `ElfImage.Validate` | kernel/elf/elf.c:140-287 | accepts exactly the images of the declarative predicate, reading no byte outside the image |
| `ElfImage.CheckTable` | kernel/elf/elf.c:176-262 | the loop with its table of seen ranges decides the pairwise condition on all headers |
| `ElfImage.LayoutIff` | kernel/elf/elf.c:214-250 | an accepted table is a proper layout of disjoint user segments off the stack iff no segment end wraps |
| `ElfImage.ExecNeverWraps` | kernel/elf/elf.c:214-250 | accepted fixed-address images always have a proper layout |
| `ElfImage.ImageReadsBack` | kernel/elf/elf.c:140-287 | every proper table of headers is read back from an image built of it |
| `ElfImage.WrapAccepted` | kernel/elf/elf.c:218-223 | an accepted relocatable image with a wrapping segment |
| `ElfImage.InterpIff` | kernel/elf/elf.c:184-200 | the path of the linker is the file range of the last PT_INTERP header, none exactly without one |
| `LoadPlan.VisitIff` | kernel/elf/elf.c:305-334 | a load visits each page of each load segment |
| `LoadPlan.VerdictOkIff` | kernel/elf/elf.c:305-334 | a load succeeds iff with NX no page is to be written and executed, and records and frames suffice for all pages and their tables |
| `LoadPlan.VerdictIff` | kernel/elf/elf.c:305-334 | NOEXEC or NOMEM iff the first page visit that cannot be made is one for write and execute, or one short of records or frames |
| `ElfLoad.VisitsTouch` | kernel/elf/elf.c:305-334 | a page is visited, for writing, for executing, iff a segment that is so touches it |
| `ElfLoad.MapSegment` | kernel/elf/elf.c:305-334 | over any space: pages touched so far are mapped with the union of permissions, fresh ones zero, old bytes kept; never writable and executable, also on failure; the exact status |
| `ElfLoad.CopySegment` | kernel/elf/elf.c:341-358 | exactly the file bytes of the segment are written; page maps unchanged |
| `ElfLoad.LoadSegments` | kernel/elf/elf.c:428-450 | over any space: the exact status; file ranges hold the file bytes, newly mapped bytes are zero, every other byte is kept; permissions are the union over the segments that touch a page |
| `ElfLoad.ExactFilled` | kernel/elf/elf.c:428-450 | after a load into an empty space every segment byte reads as the file byte or zero, shared pages included |
| `ElfLoad.StackUntouched` | kernel/elf/elf.c:240-243 | no segment of an accepted image touches a stack page |
| `ElfLoad.SegmentsOffStack` | kernel/elf/elf.c:240-243 | a load leaves the stack pages unmapped |
| `ElfLoad.MapStack` | kernel/elf/elf.c:373-380 | 16 pages, writable and not executable, other pages and bytes unchanged; fails exactly when one of them cannot be had |
| `ElfLoad.FrameReadsBack` | kernel/elf/elf.c:401-416 | each word of the initial stack frame is found at its place |
| `ElfLoad.LoadInto` | kernel/elf/elf.c:495-508 | the exact status; the exact bytes of the user half off the stack, exact permissions of every user page, entry and initial stack; no older space changes |
| `Startup.FrameFromWords` | kernel/elf/elf.c:360-420 | the bytes written at the stack pointer read as the frame of the ABI: argc 1, "program", no environment, and an auxiliary vector giving types 3, 4, 5, 6, 7 and 9 the header address, 56, the header count, 4096, the base and the entry, and no other type |
| `Startup.AuxvGet` | userland/ld.so/rtld.c:90-97 | the linker's loop finds the value of the first pair of a type before the end mark, and says so exactly when there is none |
| `Startup.AuxvOf` | userland/ld.so/rtld.c:81-89 | where the vector begins behind any well-formed argument and environment lists |
| `Startup.LinkerReads` | userland/ld.so/rtld.c:81-97 | from such a frame the linker takes exactly header address, header count, entry and base |
| `Overlay.BothFilledIff` | kernel/elf/elf.c:468-492 | program and linker both read back iff they ask for the same bytes wherever they overlap |
| `Overlay.AlwaysFitIff` | kernel/elf/elf.c:468-492 | all accepted images with the headers of two given ones go together iff what they ask for where they overlap is settled by the headers and the same |
| `Overlay.SameHeadersIff` | kernel/elf/elf.c:140-287 | two images look the same to the loader iff the header bytes it reads are the same |
| `Overlay.NoConflictFits` | kernel/elf/elf.c:468-492 | without a file byte of one in a segment of the other images always go together; for images that load nothing of their headers only then |
| `Overlay.SharedHeader` | kernel/elf/elf.c:468-492 | images that load the same header byte always go together |
| `Overlay.ApartNeverConflicts` | kernel/elf/elf.c:468-492 | images with disjoint segments always go together |
| `Overlay.SharedZeroes` | kernel/elf/elf.c:341-358 | two zero-filled segments may share addresses, so disjointness is not needed |
| `Overlay.OverlapAccepted` | kernel/elf/elf.c:468-492 | a program and a linker, both accepted, that clash |
| `Overlay.JointMapIs` | kernel/elf/elf.c:305-334 | after both loads each page has the union of the permissions of both tables, the stack its own |
| `Overlay.StackKept` | kernel/proc/process.c:600-611 | loading the linker leaves the initial stack frame as it was |
| `Exec.LoadEnd` | kernel/elf/elf.c:126-137 | the highest segment end |
| `Exec.LoadInterp` | kernel/elf/elf.c:468-492 | the exact status; on success the named linker is accepted, names no linker itself, its bytes and permissions are laid over the space, and its entry is returned; failure leaves the space consistent |
| `Exec.BuildImage` | kernel/proc/process.c:576-613 | the exact status; on success the scratch space holds exactly program, linker and initial stack, and the entry is the linker's or the program's; otherwise every frame is given back |
| `Exec.ImagesReadBack` | kernel/proc/process.c:576-613 | in such a space the program reads back, and with a linker both do iff they are compatible |
| `Exec.Swap` | kernel/proc/process.c:618-637 | exactly the old space's frames are freed and the new space is untouched by it |
| `Exec.FetchName` | kernel/proc/process.c:545-560 | the name buffer holds exactly the user bytes and a NUL, or the range is not readable |
| `Exec.RunImage` | kernel/proc/process.c:570-654 | from validation on: the status is `Exec.Expected` of image, linker and number of free frames; then the process runs exactly that image, or all is as before |
| `Exec.Execve` | kernel/proc/process.c:534-654 | a fault exactly when the name cannot be read, NOEXEC without an image of that name, otherwise exactly the expected status; every failing path restores spaces, contents, break fields and free set; success runs exactly the named image, with linker or without: memory, permissions, stack frame with its auxiliary vector, break with its permissions and instruction pointer |
| `Exec.ExpectedOkIff` | kernel/proc/process.c:570-613 | an exec succeeds iff the image is accepted, a linker it names is there, accepted and names none, with NX no page is writable and executable, and records and frames suffice for the pages of both images, the stack and their tables |
| `Exec.ExpectedFails` | kernel/proc/process.c:570-613 | with all else right it is NOMEM iff frames or records do not suffice, and NOEXEC iff a page would be writable and executable, or the linker is not fine |
| `Exec.PlanPages` | kernel/elf/elf.c:305-380 | the pages counted are those the segments of either image touch and the 16 of the stack |
| `Scheduler.Sched.constructor` | kernel/sched/sched.c:73-103 | the boot thread runs and the idle thread is on the ring |
| `Scheduler.Sched.CreateThread` | kernel/sched/sched.c:106-148 | succeeds exactly with a stack and a number left; the new thread is on the ring once, right after the current one; otherwise the ring is unchanged |
| `Scheduler.Sched.Adopt` | kernel/sched/sched.c:227-243 | the same for a caller-built thread |
| `Scheduler.Sched.PickNext` | kernel/sched/sched.c:151-162 | the first ready thread in ring order, idle only if none is ready |
| `Scheduler.Sched.Tick` | kernel/sched/sched.c:165-191 | turns the ring to that thread; only the current thread is running; the idle fallback is never taken |
| `Scheduler.Fair` | kernel/sched/sched.c:143-191 | over every run, a thread that stays ready runs within its ring distance plus the threads inserted meanwhile |
| `Processes.ZombiesChildless` | kernel/proc/process.c:671-679 | a zombie has no children |
| `Processes.NoLostWakeup` | kernel/proc/process.c:700-705 | a blocked process has a child still to exit, whose exit makes it ready |
| `Processes.Table.Alloc` | kernel/proc/process.c:83-124 | the first free slot and a process number never used before; none exactly without slot or memory |
| `Processes.Table.Fork` | kernel/proc/process.c:408-516 | succeeds exactly for a caller other than the kernel process when there are a free slot, memory for all of it and a thread number left; one new runnable child of the caller in the first free slot, or no process in use changes |
| `Processes.Table.Spawn` | kernel/proc/process.c:270-396 | the same for a process started by the kernel |
| `Processes.Table.Exit` | kernel/proc/process.c:657-712 | zombie, children reparented, parent woken; the whole invariant is kept |
| `Processes.Table.TryReap` | kernel/proc/process.c:718-737 | takes the status of the first exited matching child, never taken before; 0 and the error exactly when due |
| `Processes.Table.Wait` | kernel/proc/process.c:740-788 | reaps, or blocks only while a matching child is running and none has exited |
| `Processes.Run` | kernel/proc/process.c:657-788 | every run is a chain of steps; the invariant holds, and the statuses handed out are one for each reaped process, the one it left |
| `Processes.Serve` | kernel/proc/process.c:408-788 | each call does exactly its step: what becomes of the caller, its children and its parent, and what it answers |
| `Mailbox.Pushed` | kernel/ipc/ipc.c:68-84 | a store at the tail of the circular buffer appends to the window |
| `Mailbox.Popped` | kernel/ipc/ipc.c:86-98 | moving the head drops the first message of the window |
| `Mailbox.Endpoint.Enqueue` | kernel/ipc/ipc.c:68-84 | appends unless full or closed |
| `Mailbox.Endpoint.Dequeue` | kernel/ipc/ipc.c:86-98 | removes the oldest message unless empty |
| `Mailbox.Run` | kernel/ipc/ipc.c:68-98 | over every run each answer and the final queue are those of a bounded FIFO that can be closed; accepted is received plus queued, at most 16 are queued, and from each close on nothing more is accepted |
| `Services.Ipc.Lookup` | kernel/ipc/ipc.c:23-32 | the first live row with that name, none exactly when there is none |
| `Services.Ipc.Create` | kernel/ipc/ipc.c:130-176 | a new row in the first released place, named by its handle number; the handle reaches it iff no live row of that name stands before; fails exactly without handle, memory or row |
| `Services.FirstIff` | kernel/ipc/ipc.c:23-47 | a row placed in the first released place is the one the lookup finds iff no live row of that name stands before |
| `Services.Shadowing` | kernel/ipc/ipc.c:130-176 | create, close, create: the new handle leads to the closed endpoint and a send fails |
| `Services.Ipc.Send` | kernel/ipc/ipc.c:178-234 | appends to the queue of the endpoint the handle names, or changes nothing; fails on dead targets |
| `Services.Ipc.Receive` | kernel/ipc/ipc.c:236-298 | takes the oldest message of that queue exactly when one is waiting; 0 without one, failure without an endpoint; fails on dead targets |
| `Services.Ipc.Connect` | kernel/ipc/ipc.c:306-338 | a handle to an endpoint that exists and is open; fails on dead targets |
| `Services.Ipc.Close` | kernel/ipc/ipc.c:340-380 | closes an endpoint of one's own and drops its first name |
| `Services.Ipc.Register` | kernel/svc/svc.c:118-139 | a new entry, exactly for an endpoint of one's own, closed or not, under a name nobody has and with room left |
| `Services.Ipc.Unregister` | kernel/svc/svc.c:142-156 | succeeds exactly for the owner of the name with an endpoint of its own; the name is then gone |
| `Services.Ipc.LookupName` | kernel/svc/svc.c:162-188 | a handle to exactly the registered endpoint of a living owner; fails exactly on unknown names or without a handle |
| `Services.Ipc.Exit` | kernel/proc/process.c:694-698 | all endpoints and names of the process go, and nothing else |
| `Services.DeadUnreachable` | kernel/ipc/ipc.c:58-64 | in every valid state nothing leads to an endpoint of a dead process |
| `Services.StillNamedIff` | kernel/svc/svc.c:104-113 | right after a close the endpoint keeps a name iff it had more than one |
| `Services.ClosedOpen` | kernel/ipc/ipc.c:340-380 | a close keeps all names leading to open endpoints iff the endpoint had at most one |
| `Services.AddedOpen` | kernel/svc/svc.c:90-98 | a registration does iff the handle's endpoint is open |
| `Services.Serve` | kernel/ipc/ipc.c:130-380 | every call does exactly its step on the whole state, and keeps all names leading to open endpoints iff it is neither a close of an endpoint with two names nor a registration of a closed one |
| `Services.StepOpen` | kernel/ipc/ipc.c:130-380 | the same for the step relation alone |
| `Services.Reregistering` | kernel/svc/svc.c:90-98 | an endpoint that never had two names is closed and found by name |
| `Services.StillNamedExample` | kernel/svc/svc.c:104-113 | an endpoint that is still found after close |
| `Services.Run` | kernel/ipc/ipc.c:130-380 | every run is a chain of steps from the first state to the last; at each call names are distinct and lead to living owners, a call aimed at a process dead by then fails, and a name found leads to a process alive by then |
| `Services.OpenUntilHarm` | kernel/ipc/ipc.c:130-380 | over every run all names lead to open endpoints up to the first harmful call and not after it |
| `Paths.ComponentsJoin` | kernel/vfs/voidfs.c:211-261 | components of two paths joined by a slash are those of the one and then the other |
| `Paths.ResolveAbs` | kernel/vfs/voidfs.c:211-261 | the character cursor computes the walk over components, with all error cases |
| `Paths.UpAgain` | kernel/vfs/voidfs.c:232-235 | a child and ".." lead back; ".." at the root stays |
| `Paths.UpVanishes` | kernel/vfs/voidfs.c:211-261 | a component that leads to a child and ".." after it change nothing in any path |
| `Paths.WalkLexical` | kernel/vfs/voidfs.c:211-261 | a walk succeeds iff every prefix of its components names a node, "." and ".." worked out on names alone, and leads to the node so named |
| `Paths.WalkError` | kernel/vfs/voidfs.c:237-247 | a walk that fails does so at the first component that names no node, with the error of the directory reached |
| `Paths.ResolvedIff` | kernel/vfs/voidfs.c:211-261 | which node a path string leads to, by names alone, with the rule for a trailing slash |
| `Paths.RoundTrip` | kernel/vfs/voidfs.c:379-415 | resolving the printed path of any node gives the node |
| `Paths.RelativeFromCwd` | kernel/vfs/voidfs.c:117-134 | resolving cwd joined with a relative path is walking its components from the cwd node |
| `Paths.SlashesCollapse` | kernel/vfs/voidfs.c:220-224 | repeated slashes change nothing |
| `Paths.DotsVanish` | kernel/vfs/voidfs.c:229-231 | a "." component changes nothing |
| `Paths.Absolutize` | kernel/vfs/voidfs.c:117-134 | the joined path, or none exactly when it does not fit |
| `Paths.Process.CopyUserPath` | kernel/vfs/voidfs.c:101-112 | the string up to its NUL among the first 511 bytes; a fault or a name too long exactly when there is none |
| `Paths.Process.Enter` | kernel/vfs/voidfs.c:386-415 | succeeds exactly when the path leads to a directory whose path fits, and stores that path; otherwise changes nothing and gives the error due |
| `Paths.Process.Chdir` | kernel/vfs/voidfs.c:379-415 | succeeds exactly when user memory holds such a path; otherwise the error due |
| `Paths.Run` | kernel/vfs/voidfs.c:379-415 | every run is a chain of such changes; after each the working directory resolves to a directory |
| `Files.Descriptors.Open` | kernel/vfs/voidfs.c:288-306 | a new object with one reference in the first free slot; fails exactly without memory or slot, changing nothing |
| `Files.Descriptors.Close` | kernel/vfs/voidfs.c:341-353 | the object is freed exactly when its last slot goes; other objects are unchanged |
| `Files.Descriptors.CloseAll` | kernel/vfs/voidfs.c:465-476 | every file slot of the process is empty and the counts are right |
| `Files.Descriptors.Fork` | kernel/proc/process.c:482-506 | the child shares every file; a failed fork restores all counts |
| `Files.Run` | kernel/vfs/voidfs.c:271-476 | every run is a chain of steps that fix answers and slots; each count is the number of slots and an object lives exactly as long as a slot points to it |
| `Files.Serve` | kernel/vfs/voidfs.c:271-476 | each call does exactly its step |

## Left out

- Kernel heap (`kheap.c`): `kmalloc` is "a fresh object or none".
- Heap.Arena.HeapFree: takes live or listed blocks; what an unreported second free goes on to do is not covered.
- Heap.Arena.Free: as `HeapFree`, and mmap-backed blocks are not covered.
- Heap.Arena.ArenaGrow: the recovery branch for a break moved by others is not covered; it depends on kernel answers only.
- Heap.Arena.Malloc: sizes of at least the mmap threshold are not covered; they are one kernel call each.
- Heap.Arena.Calloc: products from the mmap threshold up to 2^64 are not covered, for the same reason.
- Heap.Arena.Realloc: sizes of at least the mmap threshold and mmap-backed blocks are not covered, for the same reason.
- Frames.Init: sums of base and length that wrap past 2^64 are not covered.
- Page-table entries are records of the flag bits the kernel uses and a frame number, not packed words; a frame is either a table or data.
- TLB flushes, CR3 loads, boot, GDT, IDT, LAPIC, console, devices and all assembly.
- Kernel stacks: they are never released, so frame conservation is about user address spaces.
- Fork.ForkSpace: does not copy the working directory, as the code does not; the copied register frame is not modelled.
- UserMem.ReleaseFrom: munmap and brk shrink release up to the mmap top, as the code does, not only the named range.
- MemoryRuns.Run: the break of a process is an argument of each brk and mmap event, any value.
- UserMem.ReserveInProcess: one direction only; that 256 pages can make the answer wrong is `MmapSearch.TrapCaught`.
- UserCalls.Mmap: the tests on descriptor, offset, flags and protection are one boolean argument.
- UserBytes.Poke: the space must be private (distinct pages in distinct frames), which `UserBytes.BackedPrivate` gives for spaces whose mapped pages are recorded, and `MemoryRuns.Run` for every space after every run.
- UserCopy.CopyFromUser: the same.
- UserCopy.CopyToUser: the same.
- UserCopy.WriteThenRead: the same.
- Exec.FetchName: the same.
- ElfImage.Validate: the bit tests on `p_align` are written as "power of two" and "congruent modulo p_align".
- Exec.Execve: looking up an image by name, and by the basename of an interpreter path, is an arbitrary function; embedded images are assumed not to wrap; the space of the caller is private, as after every `MemoryRuns.Run`.
- Exec.Process: only the fields execve touches; a call by the kernel process or a zombie, which is refused first, is not modelled.
- Processes.Table: process numbers are unbounded, so the wrap of the 32-bit counter is not covered.
- Processes.Table.Wait: returns the status; its best-effort store to user memory is not modelled.
- Scheduler.Sched: the thread table is a sequence that the methods reassign; saved stack pointers are not modelled.
- Services.Ipc: a row carries the FIFO its circular buffer stands for, which `Mailbox` proves.
- Paths: names longer than the name buffer cannot occur in the tree; reading, seeking and listing files are left out as simple.
- TTY line discipline, device registry, dynamic linker, boot-time and user test programs.
