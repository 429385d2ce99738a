# VoyagerOS64 kernel core, in Dafny

A model of the parts of the VoyagerOS64 kernel that everything else stands on, with proofs about all of
their inputs, runs and reachable states. `dafny verify dfyconfig.toml` checks the whole project.

- **Kernel heap** (`HeapLayout`, `HeapStore`, `Heap`, `HeapRun`). The allocator runs on words of mapped
  memory: tags, footers and links are read and written where the C code does, and every access is proved
  to hit a mapped word. The blocks and the order of the free list are ghost state kept in step with the
  words. On top, the heap refines a map from live pointers to payloads, over every run of every client,
  with the whole invariant in every state on the way.
- **Page tables** (`PageTables`, `PteBits`, `Addresses`, `AddressSpace`, `MemoryMap`, `Bootstrap`). Tables
  are 512-entry sequences keyed by the frame they occupy, the walk gives them meaning, and each mapping
  routine is proved to refine an update of that meaning. The bootstrap as a whole translates every page
  exactly as specified, with the rights its section is meant to have, and shows every byte of memory.
- **Physical memory** (`Bitmap`, `Frames`, `EarlyAlloc`, `BootMemory`). Two byte-packed bitmaps, a counter
  and a hint refine one set of free frames. Every frame has at most one owner, and a history records who
  took it for what.
- **Bringing memory up** (`HeapPages`, `Bringup`). The above as one run: page tables drawn from the bump
  allocator, hand-over to the frame manager, heap pages from the frame manager. How many tables a range
  takes is counted region by region, so what the boot needs is stated in frames, as is what the heap needs.
- **Scheduler** (`Sched`, `Switch`, `Tasks`). A growing circular queue follows a numbered schedule over all
  runs; the stack switch restores each task's context over all interleavings; together, n switches of n
  tasks resume each once as it left.
- **Framebuffer terminal** (`TermSpec`, `TermCells`, `Terminal`). The delta renderer paints what the naive
  full redraw would, after any run of commands; what each command does is also said by line and column, and
  the redraw pixel by pixel.
- **Formatter** (`PrintfSpec`, `Printf`, `ReadBack`, `Directives`). The format machine writes a bounded
  prefix of the specified rendering, printed integers read back, and every directive prints what its
  characters ask for.
- **Helpers** (`Words`, `Options`). 64-bit rounding, alignment and remainders.

Objects whose methods update them in place are classes; their methods follow the source statement by
statement and are specified by functions on values. `panic` is a result (`Panic`, `None` or `false`) after
which the kernel does not continue.

## What the code does not do

Some properties one would expect turn out to hold only under a condition. Each is stated as an equivalence.

- The heap's exhaustion test is right if and only if no address wraps (`HeapLayout.ExhaustionTestSound`); a
  request of 2^47 bytes passes it (`HeapLayout.HugeRequestPasses`). Likewise the block size
  (`HeapLayout.TotalSizeWraps`).
- The 2 MiB address mask clears only bit 12 below bit 21, so a large leaf is linear if and only if its
  frame is 2 MiB aligned (`Addresses.LargeLeafExact`, `Addresses.LargeLeafMisaligned`). The bootstrap only
  installs aligned ones.
- `OffsetToVirtualAddress` undoes `VirtualAddressToOffsets` if and only if the address is a page-aligned
  lower-half one (`Addresses.OffsetsRoundTrip`, `Addresses.OffsetsLose`).
- The generic paging layer takes frame 0 for failure; mapping works if and only if the missing tables can be
  had without it (`AddressSpace.AddressSpace.PagingMapMemory`, `Bringup.FrameZeroExample`). For heap pages
  that is no obstacle, because a free frame 0 becomes the page itself (`HeapPages.MapHeapPage`).
- The direct map shows a frame above 2 MiB if and only if an included entry has a byte in it or is empty and
  lies inside it (`MemoryMap.TouchesBytes`, `MemoryMap.EmptyEntryTouches`).
- `n_frame_free` accepts a frame if and only if it is usable and not free; it cannot tell who holds it, so it
  would take back any page of tables and bitmaps (`Bringup.TablesFreeable`).
- Typing leaves the screen if and only if it fills the screen's last line below the scrolling region
  (`TermCells.TypedOffGrid`).
- `fbterm_full_refresh` keeps queue and map in step if and only if the cursor is off or its cell has
  nothing pending, and the renderer's invariant if and only if, besides, the cursor is where it was last
  drawn or cannot be told from its cell (`Terminal.Terminal.FullRefresh`); otherwise a stray cursor stays
  (`Terminal.Terminal.StrayCursor`, `Terminal.Terminal.StrayCursorExample`).
- A flush with the cursor behind the last column forgets to paint the cell at the cursor's index
  (`Terminal.Terminal.Flush`, `Terminal.Terminal.ForgottenCellExample`), which is a cell if and only if a
  line follows (`TermSpec.TypedBehindLine`).
- `fbterm_revscroll` stays inside its region if and only if the region has two lines; with one line it
  counts down through 0 and reads far outside the grid (`TermSpec.RevScrollStopsInRegion`).
- `%b` reads back if and only if the value is below 2^32 (`ReadBack.BinaryReadsBack`), a negative `%d` if and
  only if its sign fits in the 32-character digit buffer (`ReadBack.SignedReadsBack`), and a conversion with
  `#` if and only if the prefix displaces no digit that matters (`ReadBack.HashReadsBack`): `%#4x` prints
  0x1234 as 0x34 (`ReadBack.HashDropsDigits`).
- A field reaches its width, its precision or, for strings, its padding only as `ReadBack.WidthReached`,
  `ReadBack.PrecisionReached` and `ReadBack.StringPadded` say: `%040u` stays short (`ReadBack.WidthCutShort`)
  and `%-.3d` drops its zeros (`ReadBack.PrecisionForgotten`).
- The format pointer passes the terminator if and only if the format ends inside a directive
  (`PrintfSpec.OverreadsWhenCutOff`), that is, if some directive starts with nothing but flags, width,
  precision and length up to the end (`PrintfSpec.CompleteAsText`).

## Assumptions

- Memory-map entries do not pass 2^64. For the direct map, included entries touch disjoint pages, the base
  is 2 MiB aligned and the window holds all physical memory; the kernel image lies outside it, in physical
  memory, and both keep clear of the heap window.
- `kfree` gets NULL or the payload address of some block, `krealloc` NULL or a live pointer. Heap requests
  are small enough that no address wraps.
- Outside the heap window the generic paging layer is used on paths without large leaves, because it never
  looks at the large-page bit; `Bringup.HeapWindowClear` proves this for the heap window.
- How many pages the heap can still get is a number (`Heap.supply`); `HeapPages.MapHeapPages` shows that it
  is exactly what frames and tables allow and goes down by one for each page.
- Tasks touch only their own stacks and memory that is no stack. Stacks do not overlap.

## Model

| member | source | states |
|---|---|---|
| `HeapLayout.EveryByteInOneBlock` | src/mm/kmalloc.c:39-91 | blocks tile the mapped window: every address in it lies in exactly one block |
| `HeapLayout.TagWords` | src/mm/kmalloc.c:53-62 | the tag macros read back size and flag of any aligned block and change only the one they name |
| `HeapLayout.TotalSizeExact` | src/mm/kmalloc.c:71-75 | up to 2^64 - 64 the block size is the payload rounded to 16 plus 48, hence 48 to 63 more than the payload |
| `HeapLayout.TotalSizeWraps` | src/mm/kmalloc.c:71-75 | the size computation is exact if and only if the payload is at most 2^64 - 64; beyond, it wraps to at most 48 |
| `HeapLayout.PushListed` | src/mm/kmalloc.c:107-113 | pushing word by word turns a doubly linked acyclic list into the list with the block in front, writing links only |
| `HeapLayout.RemovedAt` | src/mm/kmalloc.c:115-125 | unlinking leaves in every other block exactly the bypassing link |
| `HeapLayout.RemoveListed` | src/mm/kmalloc.c:115-125 | unlinking the k-th block leaves a doubly linked list without it, for head, middle and last |
| `HeapLayout.LinkWrites` | src/mm/kmalloc.c:107-125 | free-list updates disturb no header, no footer and no word of a live block |
| `HeapLayout.BlockWrites` | src/mm/kmalloc.c:172-240 | rewriting one block disturbs no other block and no list it is not on |
| `HeapLayout.SplitTiled` | src/mm/kmalloc.c:172-206 | splitting keeps the tiling |
| `HeapLayout.MergeTiled` | src/mm/kmalloc.c:209-240 | merging with the successor keeps the tiling |
| `HeapLayout.SplitSeamed` | src/mm/kmalloc.c:172-206 | splitting makes no new pair of adjacent free blocks except at growth seams |
| `HeapLayout.MergeNextSeamed` | src/mm/kmalloc.c:209-222 | after absorbing the successor, the merged block meets no free block on its right except at a seam |
| `HeapLayout.MergePrevSeamed` | src/mm/kmalloc.c:224-240 | after the predecessor absorbed it too, adjacent free blocks meet only at seams |
| `HeapLayout.GrowSeamed` | src/mm/kmalloc.c:127-157 | growth adds one seam, where the new block begins |
| `HeapLayout.GrowthEndExact` | src/mm/kmalloc.c:127-133 | the end of growth in 64-bit arithmetic is the true end if and only if nothing wraps |
| `HeapLayout.ExhaustionTestSound` | src/mm/kmalloc.c:127-133 | the exhaustion test is right if and only if no address wraps |
| `HeapLayout.HugeRequestPasses` | src/mm/kmalloc.c:127-133 | concrete failing input: a 2^47-byte request on a fresh heap passes the test |
| `HeapStore.StoreDisjoint` | src/mm/kmalloc.c:252-279 | live payloads are 16-byte aligned, inside the window and pairwise disjoint |
| `HeapStore.StoreFrame` | src/mm/kmalloc.c:172-240 | when only one block may change, every other pointer keeps its payload |
| `HeapStore.AllocatedWhen` | src/mm/kmalloc.c:172-206 | taking a block gives a new pointer with 8 to 87 bytes to spare and leaves every payload alone |
| `HeapStore.ReleasedWhen` | src/mm/kmalloc.c:281-301 | releasing a block removes its pointer and nothing else |
| `HeapStore.GrownWhen` | src/mm/kmalloc.c:324-341 | a live block that swallowed its successor begins with its old payload |
| `HeapStore.NewBlockChangesNothing` | src/mm/kmalloc.c:145-157 | growth is invisible to clients |
| `HeapStore.PokedWhen` | src/mm/kmalloc.c:252-279 | a client write changes one word of one payload: payloads alias neither tags, links nor each other |
| `Heap.Heap.constructor` | src/mm/kmalloc.c:92-97 | the statically initialised heap is valid and empty, without seams |
| `Heap.Heap.Init` | src/mm/kmalloc.c:244-250 | succeeds if and only if 64 pages can be backed; then one free block covers them and the only seam is the base |
| `Heap.Heap.FlPush` | src/mm/kmalloc.c:107-113 | list afterwards is the block followed by the old list; only links change |
| `Heap.Heap.FlRemove` | src/mm/kmalloc.c:115-125 | list afterwards is the old one without the block, in order; only links change |
| `Heap.Heap.FlFindFit` | src/mm/kmalloc.c:160-170 | the first block in list order that fits, or 0 exactly when none does |
| `Heap.Heap.AllocateFromBlock` | src/mm/kmalloc.c:172-206 | splits exactly when the rest is worth a block, keeps the invariant, changes no live word |
| `Heap.Heap.Coalesce` | src/mm/kmalloc.c:209-240 | merges both ways, keeps the invariant, leaves no avoidable adjacent free pair, changes no live word |
| `Heap.Heap.CoalesceNext` | src/mm/kmalloc.c:209-222 | absorbs a free successor, with its list entry removed, and changes no other block |
| `Heap.Heap.CoalescePrev` | src/mm/kmalloc.c:224-240 | lets a free predecessor found through its footer absorb the block |
| `Heap.Heap.HeapMapMore` | src/mm/kmalloc.c:127-157 | succeeds if and only if window and frames suffice; then one free block is appended at the old end, which becomes a seam |
| `Heap.Heap.MapPages` | src/mm/kmalloc.c:135-144 | succeeds if and only if enough pages can be backed, and uses up exactly those; nothing mapped before changes |
| `Heap.Heap.KMalloc` | src/mm/kmalloc.c:252-279 | zero size gives NULL; otherwise panics if and only if nothing fits and the heap cannot grow, else a fresh pointer with usable size between size + 8 and size + 87, in the first block of the list that fits or at the front of the growth; grows exactly when nothing fits |
| `Heap.Heap.KFree` | src/mm/kmalloc.c:281-301 | removes exactly the pointer; panics if and only if the block is already free; adds no seam, so it merges all it can; the merged block is first in the list |
| `Heap.Heap.KRealloc` | src/mm/kmalloc.c:303-353 | all paths: NULL, zero size, large enough (same pointer, nothing changes), absorb (same pointer), move (to the first fit); old words first, no other payload changes; panics if and only if a new block is needed and cannot be had |
| `Heap.Heap.GrowInPlace` | src/mm/kmalloc.c:324-341 | the absorb path keeps pointer and old words |
| `Heap.Heap.MoveTo` | src/mm/kmalloc.c:343-353 | the move path copies the old words and releases the old block |
| `Heap.Heap.CopyWords` | src/mm/kmalloc.c:343-353 | copying a prefix between two live payloads changes exactly that prefix |
| `Heap.Heap.UsableSize` | src/mm/kmalloc.c:355-362 | the length of the payload in bytes, 0 for NULL |
| `Heap.Heap.Poke` | src/mm/kmalloc.c:252-279 | a client store keeps the invariant and changes one word of its own payload |
| `HeapRun.PayloadSurvives` | src/mm/kmalloc.c:252-353 | over any run a payload keeps its pointer and every word until a call names that pointer |
| `HeapRun.Serve` | src/mm/kmalloc.c:252-353 | one request: the answering call is a step of the abstract store and the pointers held follow it; payloads lie in the first fit; window, seams and supply change exactly when nothing fits; panics if and only if a needed block cannot be had |
| `HeapRun.RunRefines` | src/mm/kmalloc.c:252-353 | heap runs, every state sound and every step the answer to its request, refine runs of the abstract store |
| `HeapRun.HeapPayloadSurvives` | src/mm/kmalloc.c:252-353 | in the heap itself a payload survives every call that does not name it |
| `HeapRun.MeetsAtGrowth` | src/mm/kmalloc.c:127-157 | in every state of every heap run adjacent free blocks meet only where a growth of that run began |
| `HeapRun.Run` | src/mm/kmalloc.c:252-353 | whatever the client asks, from the initialised heap, what happens is a heap run that starts and ends in the heap at hand; it stops exactly at a request for a block the heap cannot grow for |
| `PageTables.WalkMeaning` | src/paging/paging_bootstrap.c:383-437 | in well-shaped tables the walk reads exactly the deepest table on the path |
| `PageTables.AddTableShaped` | src/paging/paging_bootstrap.c:143-186 | hanging a zeroed table into an absent entry keeps the shape: no table shared, no cycle |
| `PageTables.AddTableInvisible` | src/paging/paging_bootstrap.c:143-186 | and changes the meaning of no page |
| `PageTables.SetLeafMeaning` | src/paging/paging_bootstrap.c:199-212 | a last-level write changes what one page means and no other |
| `PageTables.SetHugeMeaning` | src/paging/paging_bootstrap.c:214-225 | a large leaf changes what its 512 pages mean and no other |
| `PageTables.SetEntryProtected` | src/paging/paging_bootstrap.c:199-225 | writing a leaf that is not both writable and executable keeps all leaves that way |
| `PageTables.HugeInTheWay` | src/paging/paging_bootstrap.c:162-186 | a large leaf met on the way down is what the page means |
| `PageTables.LeafDecides` | src/paging/paging_bootstrap.c:162-186 | no link takes away writing or executing: what the processor grants, every entry on the path considered, is what the leaf says |
| `PteBits.Leaf4kFields` | src/paging/paging_bootstrap.c:199-212 | the stored word carries the masked address and exactly the given flags |
| `PteBits.Leaf2mTranslates` | src/paging/paging_bootstrap.c:214-225 | a stored 2 MiB word of an aligned address translates every offset by adding it |
| `PteBits.LinksReadBack` | src/paging/paging_bootstrap.c:162-186 | links of both layers read back under the bootstrap mask and carry no large-page bit |
| `PteBits.LinksReadBackGeneric` | src/paging.c:77-119 | links of both layers read back under the generic mask |
| `PteBits.GenericLeafReadsBack` | src/paging.c:181-242 | a generic leaf is present and reads back when its flags stay in the flag bits |
| `PteBits.IndexSpellings` | src/paging.c:12-30 | the two spellings of the index extraction agree |
| `PteBits.DecodeLeaf4k` | src/paging/paging_bootstrap.c:199-212 | the word stored for a 4 KiB leaf decodes to the entry of the model |
| `PteBits.DecodeLeaf2m` | src/paging/paging_bootstrap.c:214-225 | so does that of an aligned 2 MiB leaf |
| `PteBits.DecodeTableLink` | src/paging/paging_bootstrap.c:162-186 | so does a link to a table |
| `PteBits.LinksLead` | src/paging/paging_bootstrap.c:162-186 | links of both layers decode to entries that lead to their table and take no right away |
| `PteBits.DecodeGenericLink` | src/paging.c:77-98 | so does a link of the generic layer |
| `PteBits.DecodeGenericLeaf` | src/paging.c:181-211 | so does a leaf of the generic layer |
| `PteBits.DecodeZero` | src/paging.c:244-272 | the zero that unmapping writes decodes to the empty entry |
| `PteBits.DecodeBits` | src/paging/paging_bootstrap.c:45-55 | present, writable, user, large and no-execute are bits 0, 1, 2, 7 and 63, the frame is bits 12 to 51 |
| `Addresses.SameRegion` | src/paging/paging_bootstrap.c:126-132 | page numbers share a last-level table exactly when they agree above the last nine bits |
| `Addresses.OffsetsForget` | src/paging.c:12-42 | indices forget the byte offset and everything above bit 47 |
| `Addresses.OffsetsRoundTrip` | src/paging.c:12-42 | an address survives the round trip through indices if and only if it is a page-aligned lower-half one |
| `Addresses.OffsetsLose` | src/paging.c:12-42 | concrete failing inputs: the first address of the upper half loses its sign extension |
| `Addresses.LargeLeafExact` | src/paging/paging_bootstrap.c:52-57 | under the actual 2 MiB mask a leaf maps its 512 pages linearly if and only if its frame is 2 MiB aligned |
| `Addresses.LargeLeafMisaligned` | src/paging/paging_bootstrap.c:52-57 | a misaligned leaf misplaces its first page or the page at its own misalignment |
| `Addresses.ExtendLarge` | src/paging/paging_bootstrap.c:266-271 | one more aligned 2 MiB leaf extends a linear range by 512 pages |
| `Addresses.RangeBytes` | src/paging/paging_bootstrap.c:383-437 | a linearly mapped page range moves every byte by the same distance; bytes outside translate as before |
| `AddressSpace.AddressSpace.constructor` | src/paging/paging_bootstrap.c:143-156 | a zeroed root in a frame owned as a page table maps nothing |
| `AddressSpace.AddressSpace.HangTable` | src/paging/paging_bootstrap.c:143-186 | hanging in a zeroed frame owned as a page table keeps the shape and the meaning of every page |
| `AddressSpace.TablesForBound` | src/paging/paging_bootstrap.c:239-279 | a range of n pages takes at most 6 + n/512 + n/512^2 + n/512^3 tables |
| `AddressSpace.NextLacks` | src/paging/paging_bootstrap.c:199-212 | the page after a mapped one lacks only the tables of the 2 MiB, 1 GiB and 512 GiB regions it enters |
| `AddressSpace.AddressSpace.GetOrMakeNext` | src/paging/paging_bootstrap.c:162-186 | panics exactly on a large leaf or for want of a page; otherwise the table, taken from the bump allocator exactly if new, with no page meaning changed |
| `AddressSpace.AddressSpace.Map4k` | src/paging/paging_bootstrap.c:199-212 | exactly one page walks to the new leaf, all others as before; panics if and only if a large leaf is in the way or the tables its path lacks are more than the pages left, and then the pool is empty; takes exactly the tables lacking |
| `AddressSpace.AddressSpace.Map2m` | src/paging/paging_bootstrap.c:214-225 | exactly the 512 pages of the region walk to the new leaf; panics if and only if the upper tables lacking are more than the pages left, and then the pool is empty |
| `AddressSpace.AddressSpace.MapRange4k` | src/paging/paging_bootstrap.c:239-249 | every page of the range walks to a 4 KiB leaf with its frame and exactly the flags given, everything else walks as before; panics only with the pool empty and too small for the regions entered |
| `AddressSpace.AddressSpace.MapRangeHugeFirst` | src/paging/paging_bootstrap.c:251-279 | exact over head, 2 MiB and tail loops: the range translates linearly, writable and not executable, everything else walks as before; panics only with the pool empty and too small for the regions entered |
| `AddressSpace.AddressSpace.GetOrAllocEntry` | src/paging.c:77-98 | the next table, made from the installed supplier if absent; fails if and only if a new one is needed and no frame is left or the next one is frame 0 |
| `AddressSpace.AddressSpace.PagingMapMemory` | src/paging.c:181-211 | exactly one page changes, even when tables are made on the way; fails if and only if the tables its path lacks cannot be had, frame 0 counting as failure |
| `AddressSpace.AddressSpace.GetOrNullifyEntry` | src/paging.c:107-119 | the next table if present, else NULL |
| `AddressSpace.AddressSpace.PagingPhysicalMemory` | src/paging.c:213-242 | the frame of a mapped page, NULL for any other |
| `AddressSpace.AddressSpace.PagingUnmapMemory` | src/paging.c:244-272 | exactly one page becomes unmapped |
| `MemoryMap.IncludedKinds` | src/paging/paging_bootstrap.c:342-356 | only reserved and bad memory stay out of the direct map |
| `MemoryMap.TouchesBytes` | src/paging/paging_bootstrap.c:360-364 | the pages between rounded base and rounded end are those with a byte of the entry, or around an empty entry off a page boundary |
| `MemoryMap.EmptyEntryTouches` | src/paging/paging_bootstrap.c:360-364 | concrete input: an entry without bytes that makes a page part of the direct map |
| `Bootstrap.EntryShown` | src/paging/paging_bootstrap.c:334-371 | mapping an entry linearly adds exactly its frames to the direct map |
| `Bootstrap.NotShownYet` | src/paging/paging_bootstrap.c:334-371 | with disjoint entries no leaf is in the way of the next one |
| `Bootstrap.LowLeaf` | src/paging/paging_bootstrap.c:372-378 | the final 2 MiB leaf shows the first 2 MiB and changes no translation already there |
| `Bootstrap.EntryTablesBound` | src/paging/paging_bootstrap.c:327-378 | the direct map takes at most 6 tables an entry and 3 for every 512 pages |
| `Bootstrap.MapHhdm` | src/paging/paging_bootstrap.c:327-378 | complete and conflict-free, in bytes: every byte of every included entry is shown at its place, the window shows those frames and the first 2 MiB and no other, writable and not executable; nothing outside changes, the large-leaf panic is unreachable, and want of pages means an empty pool smaller than the tables of the entries |
| `Bootstrap.ShownBytes` | src/paging/paging_bootstrap.c:327-378 | frames shown mean bytes shown: each byte of an included entry translates to itself, and no byte of another frame above 2 MiB translates |
| `Bootstrap.EnsureCoverPage` | src/paging/paging_bootstrap.c:526-538 | a missing page is added, an existing one left alone, and the large-leaf panic is unreachable; panics if and only if the tables lacking exceed the pages left, and then the pool is empty |
| `Bootstrap.EnsureCoverRange` | src/paging/paging_bootstrap.c:540-552 | the same page by page, panicking only with the pool empty and too small; no effect at all when everything already translates |
| `Bootstrap.PatchedIsCovered` | src/paging/paging_bootstrap.c:526-552 | after the patch everything in the range translates, so repeating it does nothing |
| `Bootstrap.PatchFour` | src/paging/paging_bootstrap.c:576-579 | the four patches: nothing existing changes, the whole first 2 MiB, stack and both roots become reachable, nothing happens when they are already; panics only with the pool empty and too small |
| `Bootstrap.PreSwitchPatch` | src/paging/paging_bootstrap.c:557-607 | existing mappings survive with their rights, added ones show their own frame as data; panics only with an empty pool too small for the patches, for a stack that translates nowhere or for code that does: the other panics are dead |
| `Bootstrap.MapLowAndImage` | src/paging/paging_bootstrap.c:284-325 | identity window and the three image sections, and nothing else; text executable and read-only, rodata neither, data and identity window writable and not executable; panics only with the pool empty and too small |
| `Bootstrap.PagingBootstrap` | src/paging/paging_bootstrap.c:636-652 | the finished tables translate every page exactly as specified, each with the rights of its section, and no leaf is both writable and executable; panics only without a memory map or with the pool empty and too small |
| `Bootstrap.IntendedGranted` | src/paging/paging_bootstrap.c:300-325 | leaves with the intended rights make the processor grant exactly these |
| `Bootstrap.ExtendedIntended` | src/paging/paging_bootstrap.c:557-607 | patches keep every right |
| `HeapPages.OneMoreBacked` | src/mm/kmalloc.c:135-144 | taking a frame for one more page and mapping it keeps earlier pages backed |
| `HeapPages.BackedApart` | src/mm/kmalloc.c:135-144 | no heap page shares its frame with another one, with a page table or with a bitmap |
| `HeapPages.BackedIsData` | src/mm/kmalloc.c:135-144 | heap pages are writable and not executable |
| `HeapPages.HeapWindow` | src/mm/kmalloc.c:31-32 | the pages of the heap window are the addresses the heap grows in, cut to 48 bits |
| `HeapPages.MapHeapPage` | src/mm/kmalloc.c:135-144 | one page: fails if and only if the frames do not suffice for it and for the tables its path lacks |
| `HeapPages.MapHeapPages` | src/mm/kmalloc.c:135-144 | behind every new heap page stands a frame owned as that page; succeeds if and only if the frames left are as many as pages and missing tables need, and takes exactly those; nothing else changes |
| `HeapPages.BackableNeeded` | src/mm/kmalloc.c:135-144 | how many pages can be backed and how many frames they need say the same |
| `HeapPages.HeapNeeds` | src/mm/kmalloc.c:135-144 | the first n heap pages need n frames, two upper tables and one table for every 512 pages |
| `Bringup.HeapWindowClear` | src/paging/paging_bootstrap.c:327-378 | bootstrap and patches leave no leaf in the heap window when the direct map ends below it |
| `Bringup.BuildTables` | src/paging/paging_bootstrap.c:636-678 | root table, bootstrap and patches, every table from the bump allocator and owned as a page table, rights and direct map as specified; with stack and code in place it panics only with the pool empty and too small |
| `Bringup.Boot` | src/kernel.c:114-131 | the whole bring-up: translations and the rights the processor grants as specified, every byte of included memory in the direct map, ownership across the hand-over, exactly as many bitmap pages as two bitmaps need, usable and free frames exact; succeeds whenever stack and code are in place and the picked region holds `BootFrames` |
| `Bringup.SectionBytes` | src/paging/paging_bootstrap.c:289-325 | byte by byte: every byte of a section is at its physical place; code runs and is not written, constants neither, data is written and does not run, but for pages shared with a later section |
| `Bringup.OutsideImage` | src/paging/paging_bootstrap.c:284-378 | whatever else is mapped is writable and not executable |
| `Bringup.TablesFreeable` | src/neo_framealloc.c:246-275 | after the hand-over the frame manager would take back any page of tables and bitmaps |
| `Bringup.BootWithHeap` | src/kernel.c:114-131 | bring-up and then heap growth as one run: each heap page walks to a frame owned as that page, the rest is tables and the two bitmaps; succeeds if four frames a page were free at the hand-over and, nothing else using the heap's root entry, if and only if n + 2 + ceil(n / 512) were |
| `Bringup.BootFramesBound` | src/kernel.c:114-131 | bring-up needs at most 52 frames, 6 an entry, 3 for every 512 pages and the two bitmaps |
| `Bringup.SmallMachineBoots` | src/kernel.c:114-131 | a machine with 64 MiB meets everything that bring-up asks for |
| `Bringup.FrameZeroExample` | src/paging.c:77-98 | concrete failing input: with memory at address 0 the first mapping that needs a table fails |
| `Bitmap.SetBitAt` | src/neo_framealloc.c:61-64 | setting a bit of a byte changes that bit only |
| `Bitmap.ClearBitAt` | src/neo_framealloc.c:65-68 | clearing likewise |
| `Bitmap.AfterSet` | src/neo_framealloc.c:61-64 | setting bit i removes exactly i from the clear bits |
| `Bitmap.AfterClear` | src/neo_framealloc.c:65-68 | clearing bit i adds exactly i |
| `Frames.TopOf` | src/neo_framealloc.c:84-99 | the highest end of any entry |
| `Frames.UsableIndices` | src/neo_framealloc.c:120-140 | the index bounds name exactly the frames wholly inside the entry |
| `Frames.TouchedIndices` | src/neo_framealloc.c:101-118 | the index bounds name exactly the frames sharing a byte with the range |
| `Frames.FrameManager.BmTest` | src/neo_framealloc.c:69-72 | the bit, as membership in the set |
| `Frames.FrameManager.TakeOne` | src/neo_framealloc.c:108-117 | reserves one frame; the guarded decrement always happens when it should |
| `Frames.FrameManager.ComputeTopology` | src/neo_framealloc.c:84-99 | frame count covers the highest end of any entry; panics exactly when there is no memory |
| `Frames.FrameManager.MarkRangeAllocated` | src/neo_framealloc.c:101-118 | exactly the frames the range touches stop being free |
| `Frames.FrameManager.MarkRangeUsableAndFree` | src/neo_framealloc.c:120-140 | exactly the frames wholly inside the entry become usable and free |
| `Frames.FrameManager.FrameInit` | src/neo_framealloc.c:143-212 | usable frames are exactly those wholly inside some usable entry, free ones those of them touched by no reservation |
| `Frames.FrameManager.ReserveAll` | src/neo_framealloc.c:168-172 | fresh bitmaps with nothing free and nothing usable |
| `Frames.OrderIndependent` | src/neo_framealloc.c:143-212 | that set depends only on which entries and reservations there are |
| `Frames.FrameManager.FrameAlloc` | src/neo_framealloc.c:215-244 | the lowest free frame; panics if and only if none is free; the counter stays exact |
| `Frames.FrameManager.FirstFree` | src/neo_framealloc.c:224-241 | the first pass from the hint finds the lowest free frame: second pass and corruption panic are dead |
| `Frames.FrameManager.FrameFree` | src/neo_framealloc.c:246-275 | accepts exactly aligned, in-range, usable, allocated frames and adds exactly that frame |
| `EarlyAlloc.EarlyAllocator.PickRegion` | src/early_alloc.c:47-93 | the largest usable region below 4 GiB, else the largest at all, else none |
| `EarlyAlloc.EarlyAllocator.EarlyInit` | src/early_alloc.c:103-117 | panics exactly when the picked region is missing or starts at address 0 |
| `EarlyAlloc.EarlyAllocator.AllocPage` | src/early_alloc.c:119-129 | the next page of the region, or panic exactly when it is used up |
| `BootMemory.OwnerKept` | src/kernel.c:114-131 | over any history a frame keeps its owner until given back; page tables and bitmaps for ever |
| `BootMemory.DrewAdds` | src/kernel.c:114-131 | while frames are only taken, nobody loses one and the newly owned are what they were taken for |
| `BootMemory.DrewCounts` | src/neo_framealloc.c:156-168 | every event of taking adds one frame |
| `BootMemory.Memory.Supply` | src/kernel.c:67-75 | whichever supplier is installed, the page handed out had no owner and the history grows by that one event; panics if and only if none is left |
| `BootMemory.Memory.TakeBitmapPages` | src/neo_framealloc.c:156-168 | the bitmaps take consecutive pages nobody owned, one event each; succeeds if and only if there are enough |
| `BootMemory.Memory.HandOver` | src/kernel.c:114-131 | succeeds if and only if there is memory and room for both bitmaps; ownership survives, exactly as many frames become bitmap pages as two bitmaps need, usable frames are those of usable entries, no owned frame is free |
| `BootMemory.Memory.BitmapFits` | src/neo_framealloc.c:153-154 | a bitmap gets as many pages as hold a bit for every frame, and no more |
| `BootMemory.Memory.GiveBack` | src/neo_framealloc.c:246-275 | a frame that was handed out is taken back, as the next event: none of the panics is reached |
| `BootMemory.Memory.Serve` | src/neo_framealloc.c:215-275 | one request: panics if and only if a taker finds no frame; otherwise one event that answers it, and the client holds what follows from that event |
| `BootMemory.Memory.Run` | src/neo_framealloc.c:215-275 | any run of takers and returners extends the history by exactly the events that answer them, the frames held follow the events, and it stops only when no frame is left |
| `Sched.YieldsAdvance` | src/sched.c:108-126 | without creations k yields advance the running process by k places round the cycle |
| `Sched.EachRunsOnce` | src/sched.c:108-126 | among n consecutive yields of n processes each is dispatched exactly once |
| `Sched.NewcomerRuns` | src/sched.c:40-126 | a process created as the n-th runs after n - 1 - cur yields however many are created meanwhile |
| `Sched.Scheduler.constructor` | src/sched.c:31-38 | an empty queue, nothing running |
| `Sched.Scheduler.CreateProcess` | src/sched.c:40-106 | appended to the cycle in pid order; nobody else changes |
| `Sched.Scheduler.Schedule` | src/sched.c:108-126 | the next process of the cycle becomes the only running one; a lone process keeps running |
| `Sched.Scheduler.Run` | src/sched.c:40-126 | every run of yields and creations follows the numbered schedule, with queue and states intact |
| `Switch.ResumedAsLeft` | src/sched_ll.asm:14-48 | over any interleaving a task is resumed with the context it left with |
| `Switch.StillSuspended` | src/sched_ll.asm:14-48 | a suspended task stays resumable while its stack is untouched |
| `Switch.Cpu.Push` | src/sched_ll.asm:23-32 | the pushes save the context below the return address and touch nothing else |
| `Switch.Cpu.Pop` | src/sched_ll.asm:34-48 | the pops and the return restore exactly what was saved |
| `Switch.Cpu.SwitchTo` | src/sched_ll.asm:14-48 | the incoming task gets its own registers, stack pointer and return address; the outgoing one is saved; the recorded run grows by exactly this switch |
| `Switch.Cpu.Compute` | src/sched_ll.asm:14-48 | a task that keeps off other stacks disturbs no suspended task |
| `Switch.Cpu.Create` | src/sched.c:60-90 | first dispatch enters the entry point with stack pointer 8 modulo 16 and the return trap on top; the recorded run grows by exactly this creation |
| `Tasks.LeftWithContext` | src/sched_ll.asm:14-48 | a suspended task left at some event, has not been resumed since, and has the context it left with |
| `Tasks.EachResumedOnce` | src/sched.c:108-126 | among n switches in a row of n tasks every task is resumed exactly once, with the context of its own last leaving |
| `Tasks.Tasks.Spawn` | src/sched.c:40-106 | queue and stacks gain the same task, which starts at its entry with zeroed registers, an aligned stack and the return trap on top; the run so far stays in turn |
| `Tasks.Tasks.Yield` | src/sched.c:108-126 | the process after the running one is resumed with the context it left; a lone one goes on; every switch so far was in turn |
| `Tasks.Tasks.Compute` | src/sched_ll.asm:14-48 | a task that keeps off other stacks disturbs neither the queue nor a suspended task |
| `TermSpec.PlotStep` | src/terminal/framebuffer.c:382-458 | one pixel of a plot, inside the framebuffer |
| `TermSpec.CellsApart` | src/terminal/framebuffer.c:382-458 | different cells share no pixel |
| `TermSpec.PlotShows` | src/terminal/framebuffer.c:382-415 | plotting makes a cell show its character |
| `TermSpec.PlotFastShows` | src/terminal/framebuffer.c:417-458 | so does plotting only the differences over a shown character of the same colours |
| `TermSpec.PlotKeeps` | src/terminal/framebuffer.c:382-458 | no plot disturbs another cell |
| `TermSpec.RoomForOne` | src/terminal/framebuffer.c:465-494 | a cell without a pending change leaves room in the queue |
| `TermSpec.PushNew` | src/terminal/framebuffer.c:465-494 | a new item: queue and map stay in step, one cell changes |
| `TermSpec.PushAgain` | src/terminal/framebuffer.c:465-494 | a replaced item likewise |
| `TermSpec.RevScrollStopsInRegion` | src/terminal/framebuffer.c:496-520 | the downward loop reads only cells of the region if and only if that has two lines; with one it comes to read index 2^64 - 1 |
| `TermSpec.FlushAdvances` | src/terminal/framebuffer.c:768-787 | an item is still mapped to itself or was taken by the cursor |
| `TermSpec.FlushEnds` | src/terminal/framebuffer.c:768-804 | after the last item the map is null and the grid holds every pending change |
| `TermSpec.SettleCell` | src/terminal/framebuffer.c:768-787 | painting an item settles its cell and unsettles no other |
| `TermSpec.CursorSettles` | src/terminal/framebuffer.c:733-757 | drawing the cursor settles its cell inverted |
| `TermSpec.SettledShows` | src/terminal/framebuffer.c:759-804 | with no cell excused every cell shows what it should |
| `TermSpec.SettledIsRedraw` | src/terminal/framebuffer.c:759-804 | everything settled is the full redraw |
| `TermSpec.SettledButOne` | src/terminal/framebuffer.c:759-804 | everything settled but one cell nobody painted is the full redraw with its old character |
| `TermSpec.TypedBehindLine` | src/terminal/framebuffer.c:806-827 | with scrolling off, typing at the end of the region leaves the cursor behind the line; its index is a cell if and only if a line follows |
| `TermCells.ScrolledCell` | src/terminal/framebuffer.c:535-570 | by line and column: every line of the region shows the next, the last is blank |
| `TermCells.RevScrolledCell` | src/terminal/framebuffer.c:496-533 | by line and column: every line of the region shows the one before, the first is blank |
| `TermCells.TypedIsLetter` | src/terminal/framebuffer.c:806-827 | typing by line and column: filling the last line moves the region up and blanks that line, filling another goes on to the next, elsewhere one cell changes and the cursor advances by one |
| `TermCells.TypedOffGrid` | src/terminal/framebuffer.c:806-827 | typing moves the cursor off the grid if and only if it fills the last line of the screen below the region |
| `TermCells.ScrollCommands` | src/terminal/framebuffer.c:496-570 | scrolling commands cell by cell, cursor and settings kept |
| `TermCells.ErasedCell` | src/terminal/framebuffer.c:572-590 | every cell a space in the current colours, the cursor home if asked |
| `TermCells.CopiedCell` | src/terminal/framebuffer.c:647-675 | one cell takes the character of another, if both are on the grid |
| `TermCells.MovedCursor` | src/terminal/framebuffer.c:608-636 | in range where it was sent, too far to the last column or line, negative to the first |
| `TermCells.ColouredLetter` | src/terminal/framebuffer.c:806-827 | a letter typed after setting colours stands in these colours |
| `TermCells.RedrawPixel` | src/terminal/framebuffer.c:382-415 | the full redraw pixel by pixel: ink where the glyph is set, paper elsewhere, the other way round under the cursor, canvas where transparent |
| `TermSpec.ShowsAllIsRedraw` | src/terminal/framebuffer.c:382-415 | showing every cell and keeping the margin is being the naive full redraw |
| `TermSpec.RedrawFromMargin` | src/terminal/framebuffer.c:829-854 | a full redraw depends on the old pixels only in the margin |
| `TermSpec.DroppedItem` | src/terminal/framebuffer.c:829-854 | drawing the cursor outside a flush keeps queue and map in step if and only if its cell had nothing pending |
| `TermSpec.DroppedItemOverflows` | src/terminal/framebuffer.c:829-854 | with every cell pending, a cell dropped from the map gets a fresh item one past the end of the queue |
| `TermSpec.FullQueue` | src/terminal/framebuffer.c:465-494 | a state with every cell pending exists |
| `TermSpec.InvertedShows` | src/terminal/framebuffer.c:733-757 | a cell shown inverted shows its character if and only if that looks the same |
| `TermSpec.SameLookOpaque` | src/terminal/framebuffer.c:733-757 | which for opaque colours is: both colours are equal |
| `TermSpec.CursorOverGrid` | src/terminal/framebuffer.c:829-854 | the cursor over a freshly plotted grid is the full redraw with the cursor inverted |
| `Terminal.Terminal.constructor` | src/terminal/framebuffer.c:1031-1097 | a blank terminal with null map, empty queue and painted grid satisfies the invariant |
| `Terminal.Terminal.PlotChar` | src/terminal/framebuffer.c:382-415 | the framebuffer afterwards is the specified plot; off-grid cells do nothing |
| `Terminal.Terminal.PlotCharFast` | src/terminal/framebuffer.c:417-458 | likewise, only where the glyphs differ |
| `Terminal.Terminal.PushToQueue` | src/terminal/framebuffer.c:465-494 | exactly one visible cell changes; the queue cannot overflow |
| `Terminal.Terminal.Scroll` | src/terminal/framebuffer.c:535-570 | visible lines of the region move up, the last becomes blank |
| `Terminal.Terminal.RevScroll` | src/terminal/framebuffer.c:496-533 | visible lines of the region move down, the first becomes blank |
| `Terminal.Terminal.Clear` | src/terminal/framebuffer.c:572-590 | every visible cell becomes blank, the cursor goes home on request |
| `Terminal.Terminal.MoveCharacter` | src/terminal/framebuffer.c:647-675 | one visible cell is copied, off-grid arguments do nothing |
| `Terminal.Terminal.SetCursorPos` | src/terminal/framebuffer.c:608-636 | the cursor ends up clamped on the grid, also for negative arguments |
| `Terminal.Terminal.DrawCursor` | src/terminal/framebuffer.c:733-757 | the cursor cell is painted inverted and its pending change taken into the grid; off the grid the change is taken and nothing painted |
| `Terminal.Terminal.Flush` | src/terminal/framebuffer.c:759-804 | pixels become the full redraw of the visible cells, map null, queue empty; with the cursor behind a line, no cursor and the cell at its index as it looked |
| `Terminal.Terminal.FlushFrom` | src/terminal/framebuffer.c:759-804 | from any state with queue and map in step: which cells show the grid afterwards, and that unpainted cells keep their pixels |
| `Terminal.Terminal.RawPutchar` | src/terminal/framebuffer.c:806-827 | the visible screen changes as `LetterTyped` says, cell by cell: one cell, and at the end of the last line the region moves up |
| `Terminal.Terminal.Do` | src/terminal/framebuffer.c:465-827 | any command keeps the invariant and does to the visible screen what the ideal terminal does |
| `Terminal.Terminal.Run` | src/terminal/framebuffer.c:465-827 | any run of commands, flushed: the framebuffer is the full redraw of the ideal terminal |
| `Terminal.Terminal.FullRefresh` | src/terminal/framebuffer.c:829-854 | repaints canvas and grid; queue and map stay in step if and only if the cursor is off or its cell had nothing pending; the invariant survives if and only if moreover the drawn cursor is where it was or cannot be seen |
| `Terminal.Terminal.StrayCursor` | src/terminal/framebuffer.c:829-854 | otherwise the next flush elsewhere is no redraw of the screen |
| `Terminal.Terminal.StrayCursorExample` | src/terminal/framebuffer.c:829-854 | concrete failing input: one line of two cells |
| `Terminal.Terminal.ForgottenCellExample` | src/terminal/framebuffer.c:759-804 | concrete failing input: two lines of one cell, a letter that is never painted |
| `Printf.Printer.Put` | src/printf.c:133-140 | output grows by one character; the buffer keeps exactly what fits |
| `Printf.Printer.OutRev` | src/printf.c:209-245 | prints the buffer reversed, with spaces on the right side |
| `Printf.Printer.DigitLoop` | src/printf.c:354-362 | the digits of the value, least significant first, at most 32, inside the buffer |
| `Printf.Printer.NtoaFormat` | src/printf.c:248-328 | zeros, prefix, sign and padding as specified, never past the 32-character buffer |
| `Printf.Printer.Ntoa` | src/printf.c:331-423 | prints exactly the specified number text |
| `Printf.Printer.StrNLen` | src/printf.c:182-188 | the length of the string or the limit, whichever is less, modulo 2^32 |
| `Printf.Printer.PutString` | src/printf.c:1145-1177 | prints the string clipped to its precision, padded by its 32-bit length |
| `Printf.Printer.PutInteger` | src/printf.c:928-1083 | signed and unsigned conversions of every size print exactly the specified text |
| `Printf.Printer.Convert` | src/printf.c:926-1228 | every conversion prints exactly its specified text |
| `Printf.Printer.Atoi` | src/printf.c:198-206 | the decimal value of the run of digits, modulo 2^32, and where the run ends |
| `Printf.Printer.ParseDirective` | src/printf.c:807-923 | flags, width, precision and length, with star arguments taken in order; `Directives.DirectiveMeans` says what they are |
| `Directives.DirectiveMeans` | src/printf.c:807-923 | a directive splits into flags, width, precision and length, and each flag is set if and only if its character is there |
| `Directives.DirectiveUnique` | src/printf.c:807-923 | in one way only |
| `Directives.SettledMeans` | src/printf.c:840-885 | width and precision from digits or arguments; a negative width aligns left, a negative precision is 0 |
| `Directives.DigitsForward` | src/printf.c:331-423 | the digits printed are the numeral, or its last 32 digits |
| `Directives.NumberLaid` | src/printf.c:209-328 | a number in its field: with minus text then spaces, with zero sign then zeros then digits, else spaces then text |
| `Directives.PrefixPrinted` | src/printf.c:278-311 | with `#`, 0x, 0X, 0b or 0 before the digits |
| `Directives.DirectivePrinted` | src/printf.c:807-1228 | every directive of every format prints what its characters ask for, and the rest follows with the arguments left |
| `Directives.LiteralPrinted` | src/printf.c:790-800 | text outside directives is printed as it stands |
| `Directives.FortyTwoPrinted` | src/printf.c:807-1228 | `%-5d`, `%05d` and `%5d` of 42 |
| `Printf.Printer.Print` | src/printf.c:791-1229 | prints exactly the rendering of the whole format; the format pointer stays inside if and only if no directive is cut off |
| `Printf.Vsnprintf` | src/printf.c:776-1236 | the buffer holds the first min(L, count - 1) characters of the rendering and a terminator, nothing beyond is written, and the result is L as an int; no result if and only if a directive is cut off by the format's terminator |
| `PrintfSpec.DirectiveAdvances` | src/printf.c:807-923 | parsing a directive never runs past the end of the format |
| `PrintfSpec.OverreadsWhenCutOff` | src/printf.c:791-923 | the format pointer passes the terminator if and only if a directive is cut off by it |
| `PrintfSpec.CompleteAsText` | src/printf.c:800-923 | that is: some directive starts with nothing but flags, width, precision and length up to the end |
| `PrintfSpec.CutOffIsUnfinished` | src/printf.c:800-923 | the parser runs into the end if and only if the text is such an unfinished directive |
| `PrintfSpec.LonePercentOverreads` | src/printf.c:791-923 | concrete failing input: a lone percent sign |
| `ReadBack.DigitsReadBack` | src/printf.c:354-362 | the digits read back as the value modulo base to the number of places |
| `ReadBack.LeadingZeros` | src/printf.c:268-276 | padding zeros do not change the value |
| `ReadBack.NumberTrimmed` | src/printf.c:248-328 | between its spaces a number is its sign, if there was room, and its padded digits |
| `ReadBack.UnsignedReadsBack` | src/printf.c:1030-1079 | %u, %x, %X and %o without # read back as the argument for every width and precision |
| `ReadBack.BinaryReadsBack` | src/printf.c:1030-1079 | %b reads back as the argument if and only if it is below 2^32 |
| `ReadBack.BinaryLosesHighBits` | src/printf.c:1030-1079 | concrete failing input: %lb of 2^32 reads back as 0 |
| `ReadBack.SignedReadsBack` | src/printf.c:974-1029 | %d and %i read back as the argument if and only if it is not negative or its sign fits in the digit buffer |
| `ReadBack.SignLost` | src/printf.c:974-1029 | concrete failing input: %.32d of -1 loses its sign |
| `ReadBack.AtoiValue` | src/printf.c:198-206 | the number parser computes the decimal value of the whole run modulo 2^32 |
| `ReadBack.HashReadsBack` | src/printf.c:279-309 | with # a nonzero value reads back as its low digits, and as the value if and only if the prefix displaced none that matter |
| `ReadBack.HashDropsDigits` | src/printf.c:279-309 | concrete failing input: %#4x of 0x1234 reads back as 0x34 |
| `ReadBack.ZeroUnprefixed` | src/printf.c:345-349 | zero is printed without prefix |
| `ReadBack.WidthReached` | src/printf.c:248-328 | a number field reaches its width if and only if it is padded with spaces or the width is at most 32 |
| `ReadBack.WidthCutShort` | src/printf.c:248-328 | concrete failing input: `%040u` |
| `ReadBack.PrecisionReached` | src/printf.c:260-271 | the digits reach the precision if and only if there are enough or zeros may be added and fit |
| `ReadBack.PrecisionForgotten` | src/printf.c:260-271 | concrete failing input: `%-.3d` of 1 |
| `ReadBack.StringPadded` | src/printf.c:1145-1177 | a string is padded right if and only if its length fits 32 bits, is clipped, or wraps to no less than the width |
| `ReadBack.LongStringPadded` | src/printf.c:1145-1177 | concrete failing input: a string of 2^32 characters |

## Left out

- Heap.Heap.KMalloc: requires that growing the heap for the request wraps no address, because beyond that the exhaustion test is wrong; `HeapLayout.ExhaustionTestSound` gives the exact condition.
- Heap.Heap.KRealloc: the same requirement, and a pointer that is NULL or live.
- Heap.Heap.KFree: requires NULL or the payload address of some block, live or free; the source cannot tell any other pointer from these.
- Heap.Heap.HeapMapMore: the same requirement as for allocation.
- AddressSpace.AddressSpace.PagingMapMemory: requires a path without large leaves, because the source would write into the middle of a large page.
- Terminal.Terminal.RevScroll: requires a region of two lines, because with one line the source's loop runs off the grid.
- Terminal.Terminal.Flush: requires that an enabled cursor indexes a cell, because otherwise the source reads past the end of its map.
- Printf.Vsnprintf: for a format that ends inside a directive it says only that the format pointer has left the format, because what is read from there on is not part of it.
- Directives.DirectivePrinted: for `#` with `x`, `X`, `o`, `b` or `p` it says only where the rest of the format starts, because a prefix can displace digits; `ReadBack.HashReadsBack` gives the exact condition for the value, `Directives.PrefixPrinted` the text when neither zeros nor precision are asked for.
- Bringup.SectionBytes: requires sections that are not empty and page-aligned load addresses, because the source rounds an empty section off a page boundary to a page and relies on the alignment.
- Font and geometry computation of `fbterm_init`, `fbterm_deinit`, palettes, saved states and escape-sequence parsing of the terminal; the constructor also clears the map and paints the grid, which `fbterm_init` leaves undone.
- Floating-point conversions of the formatter: their text is a parameter of `Printf.Printer.Convert` and `Printf.Vsnprintf`.
- `sprintf_`, `printf_`, `fctprintf` and the null buffer: other ends of the same format machine, with another character sink; a null buffer behaves like `count` 0.
- The 64-bit counter of printed characters is unbounded in the model; only the final conversion to `int` wraps.
- `PagingDuplicate`, `PagingIdentityMap` and `map_1g`: the first copies through code blind to large leaves, the others are unused or one call.
- What happens after `PagingMapMemory` could not get a table: the source follows a null table pointer; the model reports failure.
- Reading the stack pointer, CR3 and the boot loader's responses, the probes and scans that only print, and the switch of CR3 itself: hardware and console.
- Physical placement of modules: passed through as opaque ranges.
- Spinlocks: the locked operations are atomic here.
- Interrupt masking inside `switch_to`: switching is one step.
- `kmalloc_dump`, `frame_is_allocated`, the counters' getters, `early_set_region`: trivial readers or an override.
- `scheduler_start` and `allow_sched`: one guarded call of `schedule`, which does not return.
- The contents of frames when they are mapped are arbitrary but fixed (`dirt`).
- Heap payloads are sequences of 8-byte words; byte-granular client accesses inside a word are not modelled.
- Page-granular loops count pages instead of bytes; `Addresses.RangeBytes` relates the two.
- Table entries are records of the fields paging looks at; `PteBits` decodes the stored 64-bit words to them.
- The retired allocators, virtual memory manager, string helpers, vectors, keyboard, timers, shell and device drivers: not linked or easy.
