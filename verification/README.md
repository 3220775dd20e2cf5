# Memory manager of the kernel: a Dafny model

This project models the memory-management code under `kernel/mm` and the spinlock it relies on, and proves
what that code is for. Every part has two layers: a specification on values (block tilings, flat maps,
block lists, ownership states) about which the main theorems are proved, and a class or method that
changes fields, arrays, link pointers and bit-level entries in place as the C code does and is proved to
refine the specification.

- **Buddy allocator** (`Bits`, `Tiling`, `BuddySpec`, `BuddyRuns`, `Buddy`). Memory is a tiling by blocks.
  The allocator keeps it maximally coalesced, so the free sets are a function of the live blocks: any
  history that frees everything restores the start-up state, and allocation never reports a false
  out-of-memory.
- **Page tables** (`Paging`, `Vmm`). The four-level table refines a flat map from (root, page number) to
  entries; map, unmap and lookup are update, remove and get.
- **Copy-on-write** (`CowSpec`, `CowRuns`, `CowRace`, `Cow`). Shared read-only frames with reference counts
  refine a memory in which every page is private; when that survives faults that overlap.
- **Demand paging** (`WalkTree`, `FaultProtocol`, `FaultProgress`, `FaultOutcome`, `FaultRace`, `Regions`,
  `DemandPaging`). Any number of handlers interleave their accesses to lock words, frame pools and single
  page-table entries; what they keep, when they return, and when one takes back what another has mapped.
  Regions and unregistration are modelled sequentially on top of the page tables.
- **Heap** (`HeapSpec`, `Heap`). First fit over doubly linked headers inside the heap, with the bytes of the
  payloads.
- **Page cache** (`PageCacheSpec`, `PageCacheUse`, `PageCacheRace`, `PageCache`). Hash chains and a doubly
  linked list that always hold the same entries, with the time of last use on each; which key an eviction
  takes, and what insertions that overlap do.
- **Slab caches** (`SlabSpec`, `SlabState`, `SlabRace`, `SlabAllocator`). Layout of objects in a page, who
  holds each object, and what becomes of that when threads share the processor stack.
- **Lock order** (`LockOrder`, `LockNesting`). The acquire and release traces of all operations, deadlock
  freedom, and the exact table of which lock is taken under which.

`Common` holds the few definitions that several modules share. `dafny verify dfyconfig.toml` checks the
whole project.

## Where code and documentation part

The model follows the code in these places; the counterexamples and exact conditions are proved.

- Only the unmovable zone is given pages (kernel/mm/buddy.c:105-108), yet slabs ask the reclaimable zone
  (kernel/mm/slab.c:146) and page faults the movable one (kernel/mm/demand_paging.c:176).
  `Buddy.BuddyAllocator.AllocPages` proves that those requests always return 0. The clients are therefore
  modelled over a supply of frames that may run out, so that their own properties are not vacuous.
- `vmm_map_page` fails silently without table frames (kernel/mm/vmm.c:40-47), and the fault handler then
  reports 0 for a page that is not mapped and loses the frame. The page of an undisturbed handler is mapped if
  and only if the tables its path lacks are at most the frames left for tables:
  `FaultOutcome.UndisturbedOutcome`, `FaultOutcome.SilentLossExample` at concrete numbers, and
  `DemandPaging.DemandPager.HandleFault` on the page tables. `FaultProtocol.InstallOutcome` is the step at
  which it happens among other handlers.
- Handlers of different regions hold different locks and write the same page tables
  (kernel/mm/demand_paging.c:162, kernel/mm/vmm.c:14-22). What one has mapped stays mapped as long as no
  handler finds missing a table that another is about to hang, `FaultProtocol.NeverReplaced`; otherwise it can
  be taken back, `FaultRace.TakenBack` and `TwoRegionsExample`, exactly when there are two threads and two pages
  of different demand-paged regions that lack one table, `FaultRace.LastingOnlyApart`.
- Marking a page twice, or 2^32 times over all mappings of a frame, breaks its count
  (kernel/mm/cow.c:134). `CowSpec.MarkExact` gives the exact condition, `CowSpec.SecondMarking` an input.
- `cow_decrement_ref` on the frame of a page that was never marked finds no entry, or wraps a count of zero
  (kernel/mm/cow.c:285-288), and the frame is lost: `CowSpec.DecrementAfterUnmap`, an if-and-only-if.
- A registration whose end wraps around is accepted with an empty or wrong region
  (kernel/mm/demand_paging.c:91): `Regions.CoversRequest`, `RegisterKeepsTable`, `WrappedRegistration`.
- Sizes within 27 bytes of 2^64 wrap in `kmalloc` (kernel/mm/heap.c:168-169): `HeapSpec.PayloadRoom` gives
  the exact condition for the block handed out, `HeapSpec.WrappedRequest` an input.
- The colour computation divides by zero for objects that fill the usable page exactly
  (kernel/mm/slab.c:156-158): `SlabSpec.SlackIsZero`, and `SlabSpec.SlackIsZeroExamples` for the sizes 16 and
  32 of kernel/mm/heap.c:78-79. Objects above 4064 bytes run over the page: `SlabSpec.InsideOnlyIfFits`,
  `SlabSpec.PageSizedObjectRunsOver`. Alignments above 32 are not met: `SlabSpec.AlignedUpToHeader`.
- The processor stack of a slab cache is popped and pushed without a lock (kernel/mm/slab.c:212-218,
  317-330). Operations that do not overlap are safe, `SlabRace.SerialRunSound`; otherwise two threads can be
  handed one object, `SlabRace.OverlapHandsOutTwice`, and that is possible exactly when there are two threads
  and an object, `SlabRace.SafeOnlyAlone`. Under the same condition the count of the stack can wrap,
  `SlabRace.LastPoppedTwice` and `InBoundsOnlyAlone`.
- The page cache is described as least recently used, but a lookup stamps an entry and never moves it
  (kernel/mm/page_cache.c:78): eviction is by insertion order, `PageCacheSpec.CacheIsPlainMap`. The victim is
  the least recently used key if and only if its stamp is the earliest, `PageCacheUse.VictimLeastRecent`,
  always when it was never hit, `PageCacheUse.NeverHitMeansLeastRecent`, and not in
  `PageCacheUse.HitDoesNotSave`.
- An insertion into a full page cache drops the lock for the eviction and does not search again
  (kernel/mm/page_cache.c:147-151). With n threads the size exceeds its limit by at most n - 1 and can reach
  that, `PageCacheRace.SizeBound` and `BoundReached`; a key can be cached twice exactly when the cache is full,
  `PageCacheRace.TwiceOnlyIfFull`.
- Copy-on-write faults take no lock over the whole handler (kernel/mm/cow.c:149-246). Pages stay private while
  no fault starts on a frame that another handler is on, `CowRace.FreeRunIsolated`. Two handlers on one page can
  lose a store, `CowRace.StoreLost`: given two frames that are free or may become free, runs that are not
  isolated exist exactly when there are two threads and a marked page, `CowRace.IsolatedOnlyAlone`. Handlers on
  different pages of one frame can copy what was stored to the other page, `CowRace.TornCopy`: given a free frame
  for every page, exactly when there are two threads and two marked pages of one frame,
  `CowRace.TornOnlyIfShared`.

## Model

| member | source | states |
|---|---|---|
| `Tiling.BuddyShape` | kernel/mm/buddy.c:53-57 | XOR with the block size finds the buddy: it is another block aligned to that size, the relation is symmetric, and the lower of the two is aligned to the doubled size |
| `Tiling.RunIffBlock` | kernel/mm/buddy.c:155-166 | in a tiling without two free buddies, an aligned run of 2^order free pages exists if and only if some single free block of at least that order does |
| `Tiling.Canonical` | kernel/mm/buddy.c:225-266 | two fully coalesced tilings with the same pages in use have exactly the same free blocks |
| `Tiling.SplitPages` | kernel/mm/buddy.c:172-180 | splitting a block changes the owner of exactly its own pages: lower half in use, upper half free |
| `Tiling.MergePages` | kernel/mm/buddy.c:254-262 | the merged block covers exactly the pages of the block and of its buddy, and fits the memory |
| `BuddySpec.AllocSound` | kernel/mm/buddy.c:132-191 | allocation keeps tiling, lists and coalescing in agreement, fails if and only if no aligned free run of that size exists, changes nothing on failure, and otherwise takes exactly one new block |
| `BuddySpec.TakesLive` | kernel/mm/buddy.c:182-190 | a block handed out was not live before, and the live blocks grow by exactly that block |
| `BuddySpec.FreeSound` | kernel/mm/buddy.c:217-272 | freeing a live block with its order keeps the invariant and takes exactly that block out of the live ones |
| `BuddySpec.MergeUpSound` | kernel/mm/buddy.c:228-266 | the coalescing loop, from any intermediate block it has absorbed, ends fully coalesced with only the freed block given back |
| `BuddySpec.SplitDownSound` | kernel/mm/buddy.c:172-180 | the splitting loop keeps the invariant at each order and hands out a block of exactly the order asked for |
| `BuddySpec.SameUseSameLists` | kernel/mm/buddy.c:225-266 | the free list of every order is determined, as a set and in length, by which pages are in use |
| `BuddySpec.FreeUndoesAlloc` | kernel/mm/buddy.c:132-272 | allocating and freeing again puts every free list back, whatever was split and merged on the way |
| `BuddySpec.AllocTakesHead` | kernel/mm/buddy.c:155-187 | the page handed out is the first one on the free list of the lowest order, from the one asked for, that has a free block; that list loses it, each list below gains the upper half split off at its order, and no other list changes |
| `BuddySpec.FreeListsHead` | kernel/mm/buddy.c:225-269 | the coalesced block becomes the head of the list of its order; the free buddies absorbed leave the lists below, and no other list changes |
| `BuddyRuns.GreedyOrderLargest` | kernel/mm/buddy.c:114-121 | the order chosen at start-up fits the remaining pages, is aligned, and is the largest such |
| `BuddyRuns.InitAccounts` | kernel/mm/buddy.c:105-129 | after start-up the free lists account for every page and nothing is live |
| `BuddyRuns.InitZone` | kernel/mm/buddy.c:105-129 | the greedy loop covers all pages with free blocks and leaves no two free buddies: it establishes the invariant |
| `BuddyRuns.ApplySound` | kernel/mm/buddy.c:132-272 | each request keeps the invariant and the number of pages, and changes the live blocks by exactly the block allocated or freed |
| `BuddyRuns.RunSound` | kernel/mm/buddy.c:132-272 | the invariant (tiling, alignment, lists, coalescing) holds after any legal sequence of requests |
| `BuddyRuns.HistoryIndependent` | kernel/mm/buddy.c:225-266 | any two legal histories that leave the same live blocks leave the same free sets of every order |
| `BuddyRuns.FreedAllRestoresInit` | kernel/mm/buddy.c:225-266 | once everything allocated has been freed, in any order, the free sets are those the start-up loop built and all pages are free |
| `BuddyRuns.NoFalseOutOfMemory` | kernel/mm/buddy.c:155-166 | after any legal history, allocation fails if and only if no aligned run of 2^order free pages exists |
| `Buddy.SetAllocationBit` | kernel/mm/buddy.c:28-34 | sets the bit of one page and no other; pages beyond the bitmap leave it as it was |
| `Buddy.ClearAllocationBit` | kernel/mm/buddy.c:36-42 | clears the bit of one page and no other |
| `Buddy.TestAllocationBit` | kernel/mm/buddy.c:44-51 | reads the bit of a page; 0 beyond the bitmap |
| `Buddy.ListAdd` | kernel/mm/buddy.c:59-66 | pushes a block in front of one list in place; next and prev pointers of all eleven lists stay consistent |
| `Buddy.ListRemove` | kernel/mm/buddy.c:68-79 | unlinks a block from the middle or end of its list in place; all other lists are untouched |
| `Buddy.BuddyZone.constructor` | kernel/mm/buddy.c:89-129 | the zone starts as the greedy tiling, with its arrays describing it |
| `Buddy.BuddyZone.HalveDown` | kernel/mm/buddy.c:172-180 | the in-place splitting loop does to arrays and counters what the specification does to the tiling |
| `Buddy.BuddyZone.BuddyIsFree` | kernel/mm/buddy.c:229-252 | range check, bitmap check and list walk together answer exactly whether the buddy is on the free list of the order: the bitmap never stops a legal merge |
| `Buddy.BuddyZone.MergeAll` | kernel/mm/buddy.c:228-262 | the in-place coalescing loop ends at the block and order at which the specified merge ends |
| `Buddy.BuddyZone.AllocPages` | kernel/mm/buddy.c:155-187 | search, unlink, split and page count in place refine the specified allocation |
| `Buddy.BuddyZone.FreePages` | kernel/mm/buddy.c:225-269 | coalescing, list and page count in place refine the specified free and give back exactly that block |
| `Buddy.BuddyAllocator.constructor` | kernel/mm/buddy.c:81-130 | only the unmovable zone receives the memory; its state is the greedy tiling of the page count |
| `Buddy.BuddyAllocator.AllocPages` | kernel/mm/buddy.c:132-191 | for every zone type but 1 and 2 the answer is 0 if and only if the order is above 10 or the unmovable zone has no aligned run of 2^order free pages; otherwise it is memory_start + 4096 p for a block p of that order that was free and is now live, and the bitmap marks it; types 1 and 2 always get 0, and the other zones never change |
| `Buddy.BuddyAllocator.FreePages` | kernel/mm/buddy.c:193-272 | an order above 10, the address 0, an address outside the memory or off a page boundary changes nothing; for every live block, the one at the start of memory included, its address and order take exactly that block out of the live ones, coalesce, and clear its mark in the bitmap |
| `Buddy.BuddyAllocator.AllocThenFree` | kernel/mm/buddy.c:132-272 | a client: allocating and freeing again leaves the free list of every order with the same blocks and the same blocks live |
| `Buddy.BuddyAllocator.GetFreePages` | kernel/mm/buddy.c:274-283 | the sum of the counters equals the number of pages outside live blocks and the total over the free lists |
| `Buddy.BuddyAllocator.GetOrderStats` | kernel/mm/buddy.c:296-312 | the counter of an order equals the length of its free list |
| `Paging.SlotInjective` | kernel/mm/vmm.c:36-50 | two addresses share a leaf entry only if they have the same root and the same page number (bits 12-47) |
| `Paging.SlotSamePage` | kernel/mm/vmm.c:6-9 | addresses in one page walk to the same leaf entry |
| `Paging.IndexDigits` | kernel/mm/vmm.c:6-9 | the four table indexes of an address are the base-512 digits of its page number, bits 12 to 47 |
| `Paging.LeafWriteLookup` | kernel/mm/vmm.c:48-66 | writing one leaf entry changes the translation of that page of that root and of no other page of any root |
| `Paging.LeafWriteRefines` | kernel/mm/vmm.c:48-66 | writing or clearing a leaf entry is updating or removing one key of the flat map |
| `Paging.GrowRefines` | kernel/mm/vmm.c:13-25 | hanging an empty table into a missing entry changes no translation |
| `Paging.NewRootRefines` | kernel/mm/vmm.c:27-34 | a fresh root maps nothing and changes no other address space |
| `Paging.MissingSlot` | kernel/mm/vmm.c:51-64 | a leaf entry is reachable if and only if no intermediate table is missing |
| `Paging.TableEntryFlags` | kernel/mm/vmm.c:22 | the entry of a table has the present and the writable bit and no other flag |
| `Paging.LeafEntryLeads` | kernel/mm/vmm.c:48-49 | a leaf entry is present, leads to the mapped frame, and has exactly the low twelve flag bits asked for besides |
| `Paging.PathDownSound` | kernel/mm/vmm.c:39-47 | building the path keeps every translation; it reaches the leaf table if and only if the pool has as many frames as tables are missing, and otherwise has emptied the pool |
| `Paging.PathDownTakes` | kernel/mm/vmm.c:39-47 | frames consumed on the way become page tables; none is lost and none taken twice |
| `Vmm.VirtualMemory.CreateAddressSpace` | kernel/mm/vmm.c:27-34 | fails if and only if no frame is left; otherwise a new root with no mappings, all translations unchanged |
| `Vmm.VirtualMemory.GetOrAlloc` | kernel/mm/vmm.c:13-25 | returns the next table or hangs a zeroed one there, exactly as the specified descent |
| `Vmm.VirtualMemory.MapPage` | kernel/mm/vmm.c:36-50 | with frames for the missing tables the flat map is updated at that one page and exactly those frames leave the pool; without them no translation changes (silently) and the pool is empty |
| `Vmm.VirtualMemory.UnmapPage` | kernel/mm/vmm.c:51-66 | removes exactly that page from the flat map |
| `Vmm.VirtualMemory.GetPhysicalAddress` | kernel/mm/vmm.c:67-85 | answers frame and offset of the flat map for a mapped page, nothing for an unmapped one |
| `Vmm.VirtualMemory.LeafSlot` | kernel/mm/cow.c:32-63 | the walk of the copy-on-write code reaches the same leaf entry as the map and lookup walks |
| `CowSpec.MarkExact` | kernel/mm/cow.c:101-146 | marking keeps every count equal to the number of marked mappings if and only if the page was not marked before and the 32-bit count does not wrap |
| `CowSpec.SecondMarking` | kernel/mm/cow.c:132-140 | the only page of a frame, marked twice: the count is two, and a fault that needed no frame before now fails without one |
| `CowSpec.CountOneSole` | kernel/mm/cow.c:186-192 | the stored count is one exactly when no other page maps the frame |
| `CowSpec.FaultEffect` | kernel/mm/cow.c:149-246 | a fault succeeds if and only if the page is marked and is sole owner or a frame is left; a failed one restores everything; a sole owner keeps its frame, another gets a copy |
| `CowSpec.FaultUncounted` | kernel/mm/cow.c:176-221 | a fault on a marked page whose frame counts zero moves to a copy all the same and leaves the old count at 2^32 - 1; without a frame for the copy nothing but the new reference entry remains |
| `CowSpec.MarkEffect` | kernel/mm/cow.c:101-146 | in every state whose frames are apart, marking succeeds if and only if the frame has an entry or a frame is left for one; it makes the page read-only and marked, adds one modulo 2^32 to that count and to no other, and takes a frame exactly for a new entry |
| `CowSpec.IncrementEffect` | kernel/mm/cow.c:249-258 | an increment adds one modulo 2^32 to the count of that frame and to no other; a frame leaves the pool exactly when the count was not kept before; without one nothing changes |
| `CowSpec.DecrementEffect` | kernel/mm/cow.c:261-309 | without an entry nothing changes; a count of one frees the frame and the frame of its entry; any other count goes down by one, zero to 2^32 - 1 |
| `CowSpec.DecrementUndoes` | kernel/mm/cow.c:249-309 | a decrement after an increment restores the state if and only if the count was at least one |
| `CowSpec.FaultSound` | kernel/mm/cow.c:149-246 | a fault keeps all invariants, changes no page contents in any address space, and leaves a successful page writable, unmarked and alone on its frame |
| `CowSpec.WriteSound` | kernel/mm/cow.c:149-246 | a write with its fault changes the contents of the writing page only, and fails exactly when a copy is needed and no frame is left |
| `CowSpec.MapFreshSound` | kernel/mm/vmm.c:36-50 | mapping a page to a frame of its own adds that page and changes no other |
| `CowSpec.ShareSound` | kernel/mm/cow.c:101-146 | mapping a frame a second time and marking both mappings makes the new page a copy of the old and changes no other contents |
| `CowSpec.ReleaseSound` | kernel/mm/cow.c:261-309 | unmapping a page and giving its frame up, by cow_decrement_ref when marked and directly when not, removes that page only, and the frame returns to the pool exactly when its last mapping goes |
| `CowSpec.DecrementAfterUnmap` | kernel/mm/cow.c:261-309 | cow_decrement_ref after the unmap keeps the invariant if and only if the page was marked, and returns the frame if and only if it was marked and the last one; for an unmarked page the frame is lost and a count kept for it wraps to 2^32 - 1 |
| `CowRuns.StepRefines` | kernel/mm/cow.c:101-309 | each request keeps the invariant and acts on the private contents as on memory where every page is its own copy |
| `CowRuns.RunRefines` | kernel/mm/cow.c:101-309 | over any legal run, what every page reads is what it would read if sharing copied at once |
| `CowRuns.RunCounts` | kernel/mm/cow.c:101-309 | in every reachable state the count of a frame is the number of its marked mappings, and a frame mapped twice is read-only at both |
| `CowRuns.RunConserves` | kernel/mm/cow.c:66-309 | over any legal run the free frames, the frames with page contents and the frames that store counts are together those of the start, less the frames taken and with the frames given |
| `CowRuns.StartSound` | kernel/mm/cow.c:21-29 | the empty system satisfies the invariant |
| `CowRace.Uninterrupted` | kernel/mm/cow.c:149-246 | a handler that is not interrupted, access by access and byte by byte, does exactly what the specified fault does, also when it fails |
| `CowRace.FreeRunIsolated` | kernel/mm/cow.c:149-246 | over any run of single accesses by any number of threads, byte copies, stores and frames taken or freed elsewhere included, in which no fault starts on a frame that another handler is on, every page reads what it would read with private memory |
| `CowRace.StoreLost` | kernel/mm/cow.c:188-246 | two handlers on one page, one of which copies: a store made after the other has finished is lost when the copy is installed |
| `CowRace.IsolatedOnlyAlone` | kernel/mm/cow.c:149-246 | given two frames that are free or may be freed by other owners, every run keeps pages private if and only if there are fewer than two threads or no marked page |
| `CowRace.TornCopy` | kernel/mm/cow.c:206-240 | two pages of one frame, one handler on each: the page being copied ends up with a byte that was stored to the other |
| `CowRace.TornOnlyIfShared` | kernel/mm/cow.c:149-246 | with a free frame for every page, the runs with at most one handler on a page all keep pages private if and only if there are fewer than two threads or no two marked pages of one frame |
| `CowRace.FromSpecSound` | kernel/mm/cow.c:21-29 | every state that satisfies the invariant of single operations, with any number of threads at rest, is a start for these runs |
| `CowRace.StepKeeps` | kernel/mm/cow.c:149-246 | each access of such a run keeps the counts exact, less the references being dropped, and changes what a page reads by its own stores only |
| `Cow.MarkBits` | kernel/mm/cow.c:137-139 | clearing the writable bit and setting the mark bit is the specified marking of an entry |
| `Cow.OwnBits` | kernel/mm/cow.c:195-197 | setting writable and clearing the mark is the specified taking over |
| `Cow.CopyBits` | kernel/mm/cow.c:235-238 | replacing the address bits keeps the flags and changes the frame only |
| `Cow.CopyOnWrite.Find` | kernel/mm/cow.c:72-79 | the chain walk finds the entry of a frame exactly when one exists |
| `Cow.CopyOnWrite.GetRef` | kernel/mm/cow.c:66-98 | finds or creates the reference entry as specified; page tables are untouched |
| `Cow.CopyOnWrite.MarkPage` | kernel/mm/cow.c:101-146 | on bit-level entries and hash chains, refines the specified marking, with its error returns; of the entry only the writable bit goes and the mark bit comes |
| `Cow.CopyOnWrite.HandleFault` | kernel/mm/cow.c:149-246 | on bit-level entries and hash chains, refines the specified fault, with its error returns; ten of the twelve flag bits stay, the writable bit is set and the mark bit cleared |
| `Cow.CopyOnWrite.CopyPage` | kernel/mm/cow.c:226-230 | the byte loop yields an equal page |
| `Cow.CopyOnWrite.IncrementRef` | kernel/mm/cow.c:249-258 | the stored count of the frame, the address less its low twelve bits, goes up by one modulo 2^32, every other entry stays, and a missing entry is made with count one in the first free frame, if there is one |
| `Cow.CopyOnWrite.DecrementRef` | kernel/mm/cow.c:261-309 | a count of one unlinks the entry and frees both frames, any other goes down by one modulo 2^32, and a frame without an entry changes nothing |
| `Cow.CopyOnWrite.GetRefCount` | kernel/mm/cow.c:312-333 | returns the stored count, zero when there is no entry |
| `Cow.PageFrameBits` | kernel/mm/cow.c:262 | an address is its frame, whose low twelve bits are zero, and its offset in it |
| `WalkTree.LeafIsOne` | kernel/mm/vmm.c:6-9 | in a tree of tables two page-aligned 48-bit addresses share a leaf entry only if they are one page of one root |
| `WalkTree.GrowLookup` | kernel/mm/vmm.c:13-25 | writing the entry of a fresh table changes no translation |
| `WalkTree.LeafLookup` | kernel/mm/vmm.c:48-50 | writing a leaf entry changes the translation of its page only |
| `FaultProtocol.StepKeeps` | kernel/mm/demand_paging.c:136-203 | each access of each of any number of handlers, to lock words, frame pools and single page-table entries, keeps the protocol invariant as long as no handler finds missing a table that another is about to hang |
| `FaultProtocol.EventKeeps` | kernel/mm/demand_paging.c:136-203 | so do the arrival of a fault and frames taken or given elsewhere |
| `FaultProtocol.StartSound` | kernel/mm/demand_paging.c:17-32 | the initial state, for any regions, threads, data frames and number of page-table frames, satisfies the invariant |
| `FaultProtocol.InstalledOnce` | kernel/mm/demand_paging.c:164-199 | under that condition no event replaces or removes a translation |
| `FaultProtocol.NeverReplaced` | kernel/mm/demand_paging.c:164-199 | nor does any run that keeps to the condition |
| `FaultProtocol.MappedApart` | kernel/mm/demand_paging.c:176-197 | in such runs two pages never translate to the same frame, and a mapped frame is neither free nor held by a handler |
| `FaultProtocol.FramesAccounted` | kernel/mm/demand_paging.c:176-197 | in every state that such a run reaches, frames taken equal pages that translate plus frames held between allocation and mapping plus frames lost to a silent mapping failure |
| `FaultProtocol.ReturnedMapped` | kernel/mm/demand_paging.c:154-202 | in such runs a handler that returned 0 left its page mapped unless its own mapping failed for want of page tables |
| `FaultProtocol.InstallOutcome` | kernel/mm/vmm.c:36-50 | a walk ends in one of two ways, both reporting 0: the leaf entry is written and the page is mapped, or a table is missing, no frame is left for it and the page is not mapped |
| `FaultProtocol.InstalledZeroed` | kernel/mm/demand_paging.c:182-195 | in a zero-fill region a page enters the table only with a zeroed frame |
| `FaultProgress.MutualExclusion` | kernel/core/spinlock.c:8-20 | over every run, whoever builds what, two threads are never between acquire and release of one fault lock |
| `FaultProgress.WorkBound` | kernel/mm/demand_paging.c:136-203 | without new faults every run, of any length, makes at most a fixed number of accesses that are not spent waiting: the work of its handlers |
| `FaultProgress.Progress` | kernel/core/spinlock.c:8-20 | while some handler has not returned, one of them is not waiting for a held lock |
| `FaultProgress.AllReturn` | kernel/core/spinlock.c:8-20 | from every state some schedule lets all handlers return |
| `FaultOutcome.WalkAlone` | kernel/mm/vmm.c:13-47 | an undisturbed walk reaches the leaf table if and only if the frames left cover the tables missing below |
| `FaultOutcome.UndisturbedOutcome` | kernel/mm/demand_paging.c:136-203 | in every state that satisfies the invariant, an undisturbed handler with its page in a demand-paged region, unmapped, the lock free and a data frame left returns 0, and the page is then mapped if and only if the frames left cover the missing tables |
| `FaultOutcome.UndisturbedRefusal` | kernel/mm/demand_paging.c:137-152 | a fault outside the demand-paged regions is answered with -1 and changes nothing |
| `FaultOutcome.UndisturbedMapped` | kernel/mm/demand_paging.c:154-159 | an undisturbed fault on a mapped page is answered with 0 and changes nothing, whoever holds the lock |
| `FaultOutcome.UndisturbedEmpty` | kernel/mm/demand_paging.c:161-181 | an undisturbed fault on an unmapped page without a data frame is answered with -1, changes nothing and leaves the lock free |
| `FaultOutcome.SilentLossExample` | kernel/mm/vmm.c:40-47 | one region, one thread, an empty address space: with three table frames the page is mapped, with two or fewer the handler returns 0 and it is not |
| `FaultRace.TakenBack` | kernel/mm/vmm.c:14-22 | two pages of different demand-paged regions that lack one page table, and two idle threads: in some run one handler returns 0 with its page mapped, and the other overwrites the table and unmaps it |
| `FaultRace.LastingOnlyApart` | kernel/mm/vmm.c:14-22 | from a state with no fault in progress, translations last over every run if and only if there are fewer than two threads or no two pages of different demand-paged regions lack one page table |
| `FaultRace.TwoRegionsExample` | kernel/mm/demand_paging.c:159-199 | two neighbouring regions of a fresh address space and two threads: translations do not last |
| `Regions.OverlapsMeansShared` | kernel/mm/demand_paging.c:104-106 | the three-way overlap test is exactly: the two ranges share an address |
| `Regions.RegisterAccepts` | kernel/mm/demand_paging.c:83-133 | in a table in order a registration is accepted if and only if the size is not zero, a record can be allocated, and no region holds an address of the rounded range or its first or last; then one region with the rounded bounds and exactly the flags stands in front of the old list, and otherwise the list stays |
| `Regions.ClearMeansDisjoint` | kernel/mm/demand_paging.c:89-106 | when nothing wraps that is: no region shares an address with the rounded range, which is the least page-aligned one around the request |
| `Regions.EmptyRegionRefuses` | kernel/mm/demand_paging.c:104-106 | a region that a wrapped request left empty still refuses every range that starts no later and ends no sooner |
| `Regions.CoversRequest` | kernel/mm/demand_paging.c:89-91 | the aligned region covers the requested range if and only if start + size + 4095 does not wrap |
| `Regions.RegisterKeepsTable` | kernel/mm/demand_paging.c:83-133 | an accepted registration keeps the regions non-empty, page-aligned and disjoint if and only if the computed region is non-empty, which holds whenever nothing wraps; a refused one changes nothing |
| `Regions.WrappedRegistration` | kernel/mm/demand_paging.c:89-91 | a concrete wrapping request that is accepted and leaves an empty region |
| `Regions.FindFirst` | kernel/mm/demand_paging.c:69-77 | in any list the search answers the first region that holds the address, if there is one |
| `Regions.FindTheOne` | kernel/mm/demand_paging.c:69-77 | the first match is the only region holding the address, so the answer does not depend on list order |
| `Regions.RemoveFirst` | kernel/mm/demand_paging.c:222-229 | in any list removal takes out the first region with that start and keeps the rest in order |
| `Regions.RemoveElements` | kernel/mm/demand_paging.c:222-229 | removal takes out exactly the region with that start |
| `Regions.RemoveKeepsTable` | kernel/mm/demand_paging.c:222-229 | removal keeps the table well formed |
| `DemandPaging.DemandPager.GetAddressSpace` | kernel/mm/demand_paging.c:35-58 | finds or appends the space of a root; fails if and only if the table is full and the root unknown |
| `DemandPaging.DemandPager.RegisterRegion` | kernel/mm/demand_paging.c:83-133 | with a list in order the answer is 0 if and only if the root is not NULL, its space is known or fewer than 256 are, the size is not zero, a record can be allocated, and the rounded range is clear of every region; then the list has one region more in front, with those bounds and flags; otherwise, and for other spaces, it is as before |
| `DemandPaging.DemandPager.FindRegion` | kernel/mm/demand_paging.c:61-80 | refines the specified search, in any list; nothing is found if and only if no region holds the address |
| `DemandPaging.DemandPager.HandleFault` | kernel/mm/demand_paging.c:136-203 | returns 0 if and only if the page lies in a demand-paged region and is mapped or a data frame is left; a mapped page or -1 changes nothing; otherwise one data frame is taken, and the page is mapped to it, with the missing tables taken from the table frames, if and only if those suffice |
| `DemandPaging.DemandPager.ReleasePages` | kernel/mm/demand_paging.c:231-238 | unmaps exactly the pages of the region and returns exactly their frames |
| `DemandPaging.ReturnedFrames` | kernel/mm/demand_paging.c:231-238 | the frames returned are those mapped in the region, each once |
| `DemandPaging.InsideOnPage` | kernel/mm/demand_paging.c:231-238 | every address of the region lies on a page that is released |
| `DemandPaging.OutsideOffPage` | kernel/mm/demand_paging.c:231-238 | no address outside the region lies on a released page |
| `DemandPaging.DemandPager.UnregisterRegion` | kernel/mm/demand_paging.c:206-252 | afterwards no page of the region translates, all other translations and spaces are unchanged, and the frames returned are those of the region; an empty region left by a wrapped registration is removed too |
| `HeapSpec.TotalSizeCovers` | kernel/mm/heap.c:168-169 | the computed block size is a multiple of 16 with room for header and request if and only if the 64-bit additions do not wrap, and then the least such |
| `HeapSpec.WrappedRequest` | kernel/mm/heap.c:168-191 | a request of 2^64 - 1 bytes is granted by any free block of 64 bytes and given sixteen |
| `HeapSpec.MallocSound` | kernel/mm/heap.c:168-191 | allocation keeps the blocks tiling the heap with no two free neighbours and adds exactly one used block, cut from the first fit |
| `HeapSpec.MallocFailsOnlyWhenFull` | kernel/mm/heap.c:171-194 | allocation fails if and only if no run of bytes free of used blocks is large enough |
| `HeapSpec.CarveFacts` | kernel/mm/heap.c:92-105 | the pieces of a split tile the old block; the one handed out is at most 47 bytes larger than asked for |
| `HeapSpec.FreeSound` | kernel/mm/heap.c:106-122 | freeing keeps tiling and coalescing and removes exactly that used block |
| `HeapSpec.ApplyEffect` | kernel/mm/heap.c:123-326 | what each request does to the used blocks: a free removes exactly the one at its address; an allocation adds exactly one, of the computed size and at most 47 bytes more, unless the size is zero or no free run of bytes is large enough |
| `HeapSpec.UsedDetermines` | kernel/mm/heap.c:92-122 | two heaps in order with the same blocks in use are equal, whatever their histories |
| `HeapSpec.RunSound` | kernel/mm/heap.c:123-326 | tiling and coalescing hold after any sequence of requests |
| `HeapSpec.FreedAllRestoresHeap` | kernel/mm/heap.c:66-73 | after any run, once nothing is in use the heap is the single block it started as |
| `HeapSpec.PayloadsApart` | kernel/mm/heap.c:177-188 | used blocks, headers included, never overlap and lie inside the heap |
| `HeapSpec.PayloadRoom` | kernel/mm/heap.c:168-188 | the payload handed out has the requested bytes inside its block if and only if size + 27 does not wrap at 64 bits |
| `Heap.SplitLinks` | kernel/mm/heap.c:94-103 | the header writes of a split relink the list in both directions |
| `Heap.JoinLinks` | kernel/mm/heap.c:107-112 | the header writes of a merge relink the list in both directions |
| `Heap.KernelHeap.constructor` | kernel/mm/heap.c:66-73 | heap_init builds the single free block |
| `Heap.KernelHeap.Search` | kernel/mm/heap.c:171-191 | walking the linked headers finds the first fit of the block list |
| `Heap.KernelHeap.SplitBlock` | kernel/mm/heap.c:92-105 | in-place split; bytes outside the block are untouched |
| `Heap.KernelHeap.CoalesceBlock` | kernel/mm/heap.c:106-122 | in-place merge with both neighbours refines the specified one |
| `Heap.KernelHeap.Kmalloc` | kernel/mm/heap.c:123-195 | returns NULL if and only if the size is zero or no run of bytes outside the used blocks is large enough, and then changes nothing; otherwise exactly one block more is in use, with room for the request 44 bytes behind its start, the header in front says magic, size and heap, and bytes and headers of every live allocation stay |
| `Heap.KernelHeap.Kfree` | kernel/mm/heap.c:264-326 | exactly the block whose payload starts at the address leaves the used ones; NULL and any address without the magic number in front of it, recorded or stray, are ignored |
| `Heap.KernelHeap.Krealloc` | kernel/mm/heap.c:218-263 | size zero takes the block out of the used ones; a payload that is large enough stays in place; otherwise, if there is room, one used block gives way to another with all the old bytes, keeping every other allocation; without room or without the magic number everything is as before |
| `Heap.KernelHeap.Kcalloc` | kernel/mm/heap.c:196-217 | NULL if and only if the product exceeds 64 bits, is zero or finds no room; otherwise one block more is in use, the payload is all zero, and other allocations keep their bytes |
| `Heap.ProductFits` | kernel/mm/heap.c:199-205 | the division test accepts a product if and only if it fits in 64 bits |
| `PageCacheSpec.LastIsOldest` | kernel/mm/page_cache.c:195-198 | the entry at the tail is the key inserted earliest, and the only such |
| `PageCacheSpec.EvictAgrees` | kernel/mm/page_cache.c:183-227 | each eviction removes exactly the earliest inserted resident key |
| `PageCacheSpec.InsertAgrees` | kernel/mm/page_cache.c:126-181 | insertion, with eviction when full and failure when no entry frame is found, is the map update that first forgets the oldest key and stamps the new one |
| `PageCacheSpec.StepAgrees` | kernel/mm/page_cache.c:65-265 | each operation keeps list and plain map in agreement |
| `PageCacheSpec.TouchAgrees` | kernel/mm/page_cache.c:77-82 | a hit stamps the entry with the access counter and keeps its place |
| `PageCacheSpec.CacheIsPlainMap` | kernel/mm/page_cache.c:65-265 | after any run, every lookup answers as a plain map that forgets the key inserted first |
| `PageCacheSpec.RunInv` | kernel/mm/page_cache.c:146-151 | keys stay unique and the size stays within max(1, max_pages) |
| `PageCacheSpec.InsertOutcome` | kernel/mm/page_cache.c:126-181 | success is reported if and only if the key is cached afterwards; the page itself is taken only if the key was absent |
| `PageCacheSpec.PagesConserved` | kernel/mm/page_cache.c:126-265 | over any run each page taken over is still cached, was freed by an eviction or was left to the caller, once |
| `PageCacheUse.VictimLeastRecent` | kernel/mm/page_cache.c:195-198 | after any run each stamp is the time of the last insertion or hit of its key, and the victim has the earliest stamp if and only if every other cached key was inserted or hit after the last use of the victim |
| `PageCacheUse.NeverHitMeansLeastRecent` | kernel/mm/page_cache.c:164-165 | a victim that no lookup has hit since its insertion is always the least recently used key |
| `PageCacheUse.HitDoesNotSave` | kernel/mm/page_cache.c:65-92 | insert a, insert b, look a up, insert c into a cache of two pages: a is evicted although b was used less recently |
| `PageCacheRace.Uninterrupted` | kernel/mm/page_cache.c:126-181 | check, eviction and addition by one thread without interruption are the specified insertion |
| `PageCacheRace.SizeBound` | kernel/mm/page_cache.c:146-151 | over any run of n threads the cache holds at most max(1, max_pages) + n - 1 entries: each thread beyond the first may have room that it made filled by another |
| `PageCacheRace.BoundReached` | kernel/mm/page_cache.c:146-151 | for every limit, zero included, and number of threads, given enough keys, some run reaches that bound |
| `PageCacheRace.InsertedTwice` | kernel/mm/page_cache.c:134-151 | two threads that insert one key into a full cache cache it twice, and one removal leaves it cached |
| `PageCacheRace.TwiceOnlyIfFull` | kernel/mm/page_cache.c:134-151 | for an absent key that two threads are about to insert, some interleaving caches it twice if and only if the cache is full |
| `PageCache.Cache.constructor` | kernel/mm/page_cache.c:25-57 | starts empty; unusable if and only if no frame for the table was found |
| `PageCache.Cache.Search` | kernel/mm/page_cache.c:134-144 | the bucket walk finds the entry of a key if and only if the key is cached |
| `PageCache.Cache.UnlinkHash` | kernel/mm/page_cache.c:205-216 | takes one entry out of its chain; both indexes stay in order otherwise |
| `PageCache.Cache.ListRemove` | kernel/mm/page_cache.c:109-124 | unlinks one entry from the list, wherever it stands |
| `PageCache.Cache.AddToHead` | kernel/mm/page_cache.c:94-107 | puts one entry in front of the list |
| `PageCache.Cache.LookupPage` | kernel/mm/page_cache.c:65-92 | returns the specified answer, adds one modulo 2^64 to the hits or to the misses, stamps the entry of a hit with the access counter, which goes up by one, and moves nothing |
| `PageCache.Cache.InsertPage` | kernel/mm/page_cache.c:126-181 | refines the specified insertion, stamp included; hash chains and list keep holding the same entries, and frames are conserved |
| `PageCache.Cache.EvictLru` | kernel/mm/page_cache.c:183-227 | refines the specified eviction and frees exactly the page and the frame of the last entry |
| `PageCache.Cache.RemoveKey` | kernel/mm/page_cache.c:229-265 | refines the specified removal; the frame of the entry is freed, the page is not |
| `SlabSpec.SlackIsZero` | kernel/mm/slab.c:156-158 | for every size and every power of two as alignment, the colour computation divides by zero if and only if objects fill the usable page exactly |
| `SlabSpec.SlackIsZeroExamples` | kernel/mm/heap.c:78-79 | it does for the caches of 16 and of 32 bytes that the heap asks for |
| `SlabSpec.LayoutSound` | kernel/mm/slab.c:145-171 | for every legal size, alignment and colour an object lies behind the header, inside the page, aligned if the alignment is at most 32, and apart from every other |
| `SlabSpec.ShiftSteps` | kernel/mm/slab.c:156-158 | the first colour shifts the objects by nothing and each colour by 64 bytes more than the one before, modulo the bytes left for colouring |
| `SlabSpec.AlignedUpToHeader` | kernel/mm/slab.c:145-171 | the objects of a slab have the alignment asked for if and only if it is at most the 32 bytes of the slab header |
| `SlabSpec.InsideOnlyIfFits` | kernel/mm/slab.c:63-69 | for every size and every power of two as alignment, objects stay inside the page if and only if one fits behind the header |
| `SlabSpec.PageSizedObjectRunsOver` | kernel/mm/slab.c:35-39 | an object of 4096 bytes, which creation lets through, ends 32 bytes inside the next page |
| `SlabState.TakeSound` | kernel/mm/slab.c:173-183 | an object popped from a slab was with no client and not cached, and nothing else changes hands |
| `SlabState.ReadySound` | kernel/mm/slab.c:223-256 | turning a free or a new slab into a partial one keeps the partition of objects |
| `SlabState.AllocSound` | kernel/mm/slab.c:202-269 | allocation fails if and only if no object is free and no page is found, never hands out a live object, and leaves every other object with its holder |
| `SlabState.AllocOrder` | kernel/mm/slab.c:212-256 | an object comes from the top of the processor stack, else from the head of the partial list, else from the head of the free list, else it is the last object of a new slab; only the chain it came from changes |
| `SlabState.FindsSlab` | kernel/mm/slab.c:271-293 | the search over the full and partial lists finds the slab of every object that is out |
| `SlabState.PutBackSound` | kernel/mm/slab.c:335-345 | returning an object to its slab keeps the lists in step with the use counts |
| `SlabState.FreeSound` | kernel/mm/slab.c:302-354 | freeing a live object always finds a place for it and takes only that object from its client |
| `SlabState.FreeOrder` | kernel/mm/slab.c:318-345 | a freed object goes on the processor stack while that holds fewer than sixteen, else in front of the chain of the slab in its page; a slab that was full then heads the partial list and one wholly free the free list |
| `SlabState.OutsideChain` | kernel/mm/slab.c:173-183 | the objects of a slab outside its chain are as many as its use count says |
| `SlabState.OneHolder` | kernel/mm/slab.c:202-354 | every object is in exactly one of the free chain of its slab, the processor stack and the live set |
| `SlabState.InUseAccounts` | kernel/mm/slab.c:454-474 | the use counts of all slabs add up to live plus cached objects |
| `SlabState.RunSound` | kernel/mm/slab.c:202-354 | over any legal run the partition holds, and allocations less frees equal the live objects |
| `SlabRace.SerialRunSound` | kernel/mm/slab.c:212-218 | over any run of single accesses by any number of threads whose operations on the processor stack do not overlap, no object is held twice or still on the stack, none is lost and none appears |
| `SlabRace.OverlapHandsOutTwice` | kernel/mm/slab.c:212-216 | from every state with an object on the stack, two threads popping in step are both handed the object on top |
| `SlabRace.SafeOnlyAlone` | kernel/mm/slab.c:212-333 | some interleaving hands an object to two threads if and only if there are two threads and an object |
| `SlabRace.LastPoppedTwice` | kernel/mm/slab.c:212-214 | two overlapping pops of the last object leave the count at 2^32 - 1, and the second goes on to read the stack there |
| `SlabRace.InBoundsOnlyAlone` | kernel/mm/slab.c:212-318 | the count stays in range and every index in the stack page over all runs if and only if there are fewer than two threads or no object |
| `SlabRace.StartSound` | kernel/mm/slab.c:81-85 | distinct objects on the stack and idle threads satisfy the invariant |
| `SlabRace.PopOnce` | kernel/mm/slab.c:212-218 | a pop that nobody interrupts takes the object on top of the stack and hands it to its thread, and changes nothing else |
| `SlabRace.PushOnce` | kernel/mm/slab.c:318-333 | a push that nobody interrupts puts the object on top of the stack and takes it from its thread, and changes nothing else |
| `SlabAllocator.SlabCache.Create` | kernel/mm/slab.c:22-93 | refuses zero and oversized requests, fails without a page, and otherwise makes an empty cache of the computed geometry, fit for use whenever objects fit behind the header and leave bytes for colouring |
| `SlabAllocator.SlabCache.CreateSlab` | kernel/mm/slab.c:145-171 | builds a slab of the current colour with all objects chained, last first, and steps the colour by one modulo 8 |
| `SlabAllocator.SlabCache.MoveToList` | kernel/mm/slab.c:185-200 | removes one slab from a list and pushes it on another |
| `SlabAllocator.SlabCache.SlabAlloc` | kernel/mm/slab.c:202-269 | refines the specified allocation, never hands out a live object, fails exactly when nothing is free and no page is left, and counts allocations and hits; pages are conserved |
| `SlabAllocator.SlabCache.FindForObject` | kernel/mm/slab.c:271-293 | refines the specified search |
| `SlabAllocator.SlabCache.SlabFree` | kernel/mm/slab.c:302-354 | refines the specified free, to the processor stack or to the slab; pages are conserved |
| `SlabAllocator.SlabCache.Destroy` | kernel/mm/slab.c:95-143 | returns every page the cache holds exactly once |
| `LockOrder.TraceRises` | kernel/mm/demand_paging.c:99-131 | on every path every operation takes locks in strictly rising rank and releases all it took, the statistics calls of a failing slab_cache_create included |
| `LockOrder.ProgramRises` | kernel/core/spinlock.c:8-20 | so does any sequence of operations |
| `LockOrder.StepKeeps` | kernel/core/spinlock.c:8-20 | no lock is ever held by two threads, and every thread keeps the discipline |
| `LockOrder.FindRunner` | kernel/core/spinlock.c:8-15 | following holders of wanted locks upward in rank ends at a thread that can step |
| `LockOrder.DeadlockFree` | kernel/core/spinlock.c:8-20 | for any number of threads, programs and interleavings, some thread can step as long as one is not done |
| `LockOrder.AlwaysFinishes` | kernel/core/spinlock.c:8-20 | every step does one unit of the remaining work, and a run that cannot go on has finished every thread with no lock held |
| `LockNesting.NestingTable` | kernel/mm/cow.c:66-309 | a lock is taken under another by some operation on some path if and only if the table lists it: zone locks under those of an address space, a slab cache, a region, the reference table and the page cache, a slab lock under that of an address space, the lock of a reference entry under that of the reference table |

## Left out

- `kernel/mm/pool.c`, GFP flag decoding, `pmm.c` beyond taking and giving one frame, statistics and dump
  functions, string and print routines, drivers, interrupts and boot code: members that would only be easy,
  or hardware plumbing.
- The slab route of `kmalloc` and `kfree` and `find_slab_cache`: the caches stay NULL because the heap is
  initialised before slabs are enabled (kernel/core/main.c:72-73), so the route cannot be reached.
- `slab_cpu_cache_refill` and `slab_cpu_cache_drain` (never called), and the processor stacks other than
  the first, which no code uses.
- `spinlock_try_acquire`: no operation in the model uses it. Each atomic operation is one sequentially
  consistent step; weak memory ordering, TLB flushes and the direct map are not modelled.
- Sixty-four-bit addresses of the buddy memory are unbounded numbers: the model assumes that
  memory_start + memory_size + 4 MiB does not wrap. The list nodes inside free pages are next and prev
  arrays indexed by page number.
- Page-table entries and physical frames are 64-bit vectors; virtual addresses are unbounded numbers of
  which bits 12 to 47 select the page.
- The chains of the copy-on-write hash table, the region lists, the slab lists and the free chains of
  slabs are sequences, updated in place as fields; their next pointers inside pages are not modelled.
  The hash table of the page cache is a sequence of 1024 bucket heads over entries with real links.
- Outside the modules that interleave threads (`FaultProtocol` and the modules on it, `CowRace`,
  `PageCacheRace`, `SlabRace`, `LockOrder`) each operation is a single step; the refinement of the classes is
  proved for that. Marking, sharing and releasing pages are not part of `CowRace`, where every marked page has
  its reference entry; unregistration is not part of the fault protocol. The lock traces in `LockOrder` follow
  the real acquire and release points.
- FaultProtocol.NeverReplaced: for runs in which no handler finds missing a table that another is about to hang;
  `FaultRace.LastingOnlyApart` says when every run is one. Faults are raised at 48-bit addresses, which stand
  for the canonical ones. Finding the region is one step, and so is zeroing a frame that nobody else can see.
- CowRace.IsolatedOnlyAlone: two frames exist that are free or in the hands of other owners; with less
  memory than that, runs that lose a store are not characterised, and only the if-part is proved
  (`CowRace.FreeRunIsolated`).
- CowRace.TornOnlyIfShared: there is a free frame for every page; with fewer frames only the if-part is proved.
- PageCacheRace.BoundReached: distinct keys are given, since there are only 2^128.
- Vmm.VirtualMemory.GetPhysicalAddress: returns an option of frame and offset instead of one number with 0
  for unmapped, so frame 0 is not confused with failure; frames in the pool are never 0.
- Cow.CopyOnWrite.HandleFault: the abstract entry keeps frame, present, writable and mark bits; the other
  low flag bits are followed in the contract of the method, not in the abstract state.
- CowRuns.RunRefines: mappings stay below 2^32 - 3, so that no reference count can wrap.
- Heap.KernelHeap.Kmalloc: the heap is below 4 GiB, so the 32-bit size in the header is exact, and the size
  is small enough that the total does not wrap.
- Heap.KernelHeap.Krealloc: the same bound on the size as for Kmalloc, and on addresses as for Kfree.
- Heap.KernelHeap.Kcalloc: the same bound on the product as for Kmalloc on the size. What an allocation whose
  size wraps does to its neighbours is not modelled beyond `HeapSpec.PayloadRoom`.
- Heap.KernelHeap.Kfree: a magic number in front of an address that is not a live payload (a double free) is
  outside the contract; the code does not detect it.
- Buddy.BuddyAllocator.FreePages: an accepted address must be a live block freed with its own order; the
  code does not detect anything else.
- SlabAllocator.SlabCache.Create: an alignment is zero or a power of two, for which the mask of the code
  rounds up. The operations on a cache need its geometry to be usable, which `SlabSpec.SlackIsZero` and
  `SlabSpec.InsideOnlyIfFits` characterise. The name is not part of the model.
- SlabRace.SafeOnlyAlone: a pop or push whose test fails goes on under the lock of the cache, which is not
  part of that module; an index past the page of the stack hands out nothing.
- SlabAllocator.SlabCache.SlabFree: the object must be live; a foreign pointer is outside the contract.
- PageCacheUse.VictimLeastRecent: the access counter of the run does not wrap at 64 bits, as it does in the
  class.
- PageCache.Cache.InsertPage: the page must not already be free or cached under another key, since an
  eviction would free it a second time. Counters of hits, misses and time wrap at 64 bits.
- DemandPaging.DemandPager.UnregisterRegion: no fault on the region is in flight.
