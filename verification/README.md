# JKOS kernel core: a verified model

JKOS is a small x86 kernel. Under its hardware code lie four connected, stateful algorithms and a
loader, and this project models them and proves what they keep over every run:

- an intrusive red-black tree with parent pointers, subtree sizes and a shared sentinel
  (`RbShape`, `RbColour`, `RbTree`);
- the kernel heap: best fit with alignment, one free set in two trees, headers in memory, splitting,
  coalescing and lazily backed pages (`FreeBlocks`, `HeapLayout`, `HeapRequest`, `HeapMemory`,
  `KHeap`, `HeapRuns`);
- paging with copy-on-write and lazy allocation (`PageState`, `PageSteps`, `PageFaults`, `PageClone`,
  `PageRuns`, `PageBoot`, `PageShares`, `PageForks`, `PageRights`, `Pager`);
- the scheduler: circular task queues, round robin, sleeping and waking, pids found through a tree
  (`TaskRing`, `TaskState`, `TaskRuns`, `TaskEffects`, `TaskQueues`, `Scheduler`);
- the ELF loader (`ElfImage`, `ElfLoader`, `ElfFormat`), whose memory, like the pages behind the heap, is an
  abstraction of the paging state (`PageAbstraction`, `PageLoader`, `PageProgress`).

`Common` holds the address constants and the 32-bit arithmetic they share.

Code that changes things in place is modelled by classes with the source's fields and loops. Each of
their methods is proved against a function of the old state (or, for the tree and the heap, against
the sequence or set it represents), and the invariants and run theorems are proved about those
functions. Every region in which the kernel disables interrupts is one atomic step, and a panic is an
outcome that ends the run.

## Main results

1. **Copy-on-write refines independent memories** (`PageRuns.Refinement`). Over every run of fork,
   read, write, lazy allocation, allocation and release, every address space finds in every word of
   every page what a machine with one memory map per space holds there. The paging invariant behind
   it also says that counts are exact, that no frame is lost and that a writable entry is alone on its
   frame. `PageBoot.EveryRun` says all of it of every run from the state that `Page::init` leaves.
   `PageRights.RightsRun` does the same for rights: an access goes through exactly when the rights that
   the events gave to the page allow it and a frame is left where one is needed.
2. **The tree is correct in place** (`RbTree.Rbt.Insert`, `Erase`, `FindGe`, `FindLe`, `FindKth`),
   with rotation through a reference to the parent's slot and a sentinel whose parent is overwritten.
3. **Free and live blocks tile the heap in every reachable state** (`HeapRuns.RunTiles`,
   `KHeap.KernelHeap.Kmalloc`, `Kfree`), no page of a live block is ever given back, and no live block
   wastes more than 32 bytes besides its header (`HeapRuns.RunTight`).
4. **Nobody waits without bound** (`TaskRuns.BoundedWaiting`, `RoundRobin`), a bare `find_ge`
   finds tasks exactly because pids have no gap, and every task resumes with the registers of the event
   by which it was left last (`TaskEffects.ResumesWith`).
5. **Where the code falls short, the exact condition is proved**, with an input that fails and, where
   it is one of a state, a run or a file that leads there: `HeapLayout.ReclaimComplete`
   (`HeapRuns.MissReached`), `Common.AlignExact` (`AlignWraps`), `HeapRequest.RequestExact`
   (`RequestWraps`), `HeapRequest.FitTestExact` and `SafeExact` (`HeapRuns.ZeroReached`,
   `OversizeServed`), `HeapRuns.RangeTestExact` (`RangeTestWraps`), `PageSteps.AllocMappedInv`,
   `PageSteps.LazyAllocInv` and `PageFaults.ZeroFillExact` (`PageShares.ReachableLeak`,
   `LazyAllocLeaks`), `TaskState.SleepKeeps` (`LoneSleep`), `ElfImage.SegmentExact`
   (`ElfLoader.ClearedByte`), `RbTree.Rbt.FindKth` (`KthNegative`).
6. **The image is what the address space sees** (`PageLoader.ImageShown`): a run of allocations,
   zero-filled lazy allocations and stores that loads a file leaves in the page tables and frames
   exactly what the loader's model says, so each segment is seen as the file describes it exactly when
   it meets its condition. Such a run exists exactly when there are enough frames
   (`PageProgress.ElfGoes`).

Where code and comment disagree the model follows the code: `find_kth` counts from the least key,
although `src/include/lib/rbtree.h:63` calls it the k-th large value, and read-only pages do not
survive, because the fault handler makes every written user page writable.

## Model

| member | source | states |
|---|---|---|
| `Common.AlignExact` | src/include/common.h:90-91 | The 32-bit `get_aligned` equals rounding up over the integers for every heap address if and only if the alignment is at most 2^22 |
| `Common.AlignWraps` | src/include/common.h:90-107 | From 8 MB alignment on the end of the heap is rounded to address 0: the input that fails |
| `Common.RoundUpLeast` | src/include/common.h:90-91 | Rounding up gives the least multiple that is not below the address |
| `RbColour.HeightIsLogarithmic` | src/include/lib/rbtree.h:426-430 | 2^height is at most (n+1)^2 in every tree with the red-black properties |
| `RbShape.RotateOrder` | src/include/lib/rbtree.h:165-179 | A rotation leaves the in-order sequence of nodes as it is, in either direction |
| `RbColour.RecolouredRedBlack` | src/include/lib/rbtree.h:224-231 | Recolouring parent, uncle and grandparent keeps equal black heights and moves the only possible red-red pair two levels up |
| `RbColour.InsertRotatedRedBlack` | src/include/lib/rbtree.h:233-245 | The one or two rotations that end an insertion give a tree with all red-black properties |
| `RbColour.RedSiblingRedBlack` | src/include/lib/rbtree.h:284-291 | The red-sibling case of a deletion keeps the missing black at the same place, below a black sibling |
| `RbColour.PushedUpRedBlack` | src/include/lib/rbtree.h:293-298 | The case of a black sibling with black children moves the missing black to the parent |
| `RbColour.NearRotatedRedBlack` | src/include/lib/rbtree.h:300-307 | The near-nephew case turns into the far-nephew case without changing black heights |
| `RbColour.FarRotatedRedBlack` | src/include/lib/rbtree.h:311-315 | The far-nephew case restores equal black heights under a node of the old colour |
| `RbTree.Rbt.constructor` | src/include/lib/rbtree.h:153-163 | An empty tree whose sentinel is black, sizeless and its own child |
| `RbTree.Rbt.GetRef` | src/include/lib/rbtree.h:102-103 | The reference that holds a node, the root variable or a child field of its parent, found through the parent pointer |
| `RbTree.Rbt.Rotate` | src/include/lib/rbtree.h:165-179 | In place: all links, parent pointers and subtree sizes describe the rotated tree, although the sentinel may get a new parent |
| `RbTree.Rbt.InsertFixUp` | src/include/lib/rbtree.h:219-249 | The fix-up loop ends with the red-black properties, the same order of nodes and a black root; each recolouring climbs two levels |
| `RbTree.Rbt.Insert` | src/include/lib/rbtree.h:181-250 | Adds exactly one key, in front of all keys that are not below it, and keeps links, colours, sizes and search order |
| `RbTree.Rbt.RemoveFixUp` | src/include/lib/rbtree.h:277-318 | The fix-up loop of a deletion terminates (measure 0 for a red node or the root, else depth + 1) with the red-black properties and the same order of nodes |
| `RbTree.Rbt.RemoveBottom` | src/include/lib/rbtree.h:252-319 | Takes one node with at most one child out, counts down the sizes above it and restores the red-black properties, although the parent of the sentinel is overwritten on the way |
| `RbTree.Rbt.Erase` | src/include/lib/rbtree.h:321-339 | Removes exactly the key at the place of the node and keeps everything else in order; null and the sentinel are ignored |
| `RbTree.Rbt.FindGe` | src/include/lib/rbtree.h:341-376 | The node of the first key that is not below the argument, or null exactly when there is none, within the height of the tree |
| `RbTree.Rbt.FindLe` | src/include/lib/rbtree.h:350-395 | The node of the last key that is not above the argument, or null exactly when there is none, within the height of the tree |
| `RbTree.Rbt.SearchIsLogarithmic` | src/include/lib/rbtree.h:359-395 | The height that bounds every search is at most 2 * log2(n + 1) |
| `RbTree.Rbt.FindKth` | src/include/lib/rbtree.h:448-466 | The node of element k of the ascending order for k < n, null for larger k |
| `RbTree.Rbt.KthNegative` | src/include/lib/rbtree.h:448-466 | For a negative k every round of the loop goes to the left child, and at the sentinel stays there, so the loop never returns |
| `RbTree.Rbt.Walk` | src/include/lib/rbtree.h:470-485 | The keys handed to the callback are the contents in ascending order |
| `RbTree.Rbt.ContentsSorted` | src/include/lib/rbtree.h:415-417 | The keys of every valid tree are sorted |
| `FreeBlocks.RanksAreTheOrders` | src/core/kheap.cpp:51-71 | The integer ranks that order the two trees are the two lexicographic block orders, and distinct blocks have distinct ranks |
| `FreeBlocks.FreeIndex.FindFit` | src/core/kheap.cpp:101-106 | The least free block by (size, start) that is not below the request, or null exactly when none is |
| `FreeBlocks.FreeIndex.FindBefore` | src/core/kheap.cpp:164-168 | The last free block by (start, size) that is not above the argument |
| `FreeBlocks.FreeIndex.FindAfter` | src/core/kheap.cpp:185-188 | The first free block by (start, size) that is not below the argument |
| `FreeBlocks.FreeIndex.TakeBySize` | src/core/kheap.cpp:114-115 | Both trees lose exactly the block found by size |
| `FreeBlocks.FreeIndex.TakeByStart` | src/core/kheap.cpp:177-178 | Both trees lose exactly the block found by start |
| `FreeBlocks.FreeIndex.Add` | src/core/kheap.cpp:125-126 | Both trees gain exactly the block, unless the node pool is used up, which happens exactly from 511 blocks on |
| `HeapLayout.InitialTiling` | src/core/kheap.cpp:234-238 | The single initial block tiles the heap |
| `HeapLayout.TilesOnce` | src/core/kheap.cpp:91-208 | In a tiling no address lies in two blocks |
| `HeapLayout.NothingLive` | src/core/kheap.cpp:91-208 | A tiling without live blocks is the single initial block |
| `HeapLayout.CarveTiling` | src/core/kheap.cpp:117-140 | Splitting a free block at both ends around the payload keeps the tiling, and free blocks still do not touch |
| `HeapLayout.ReleaseTiling` | src/core/kheap.cpp:164-204 | Merging a freed block with the neighbours that touch it keeps the tiling |
| `HeapLayout.BeforeDecides` | src/core/kheap.cpp:164-182 | The predecessor test accepts exactly when no free block that starts no later overlaps the block |
| `HeapLayout.AfterDecides` | src/core/kheap.cpp:185-201 | The successor test on the joined block accepts exactly when no other free block overlaps it |
| `HeapLayout.ReclaimSafe` | src/core/kheap.cpp:160-207 | Every page given back lies wholly inside the merged free block |
| `HeapLayout.ReclaimComplete` | src/core/kheap.cpp:193-207 | Every page that became wholly free is given back if and only if the freed block ends on a page boundary or the page it ends in is not wholly free |
| `HeapRuns.MissReached` | src/core/kheap.cpp:91-208 | One request and its release lead back to the initial heap, and the page in which the block ended is kept although all of it is free |
| `HeapRequest.RequestExact` | src/core/kheap.cpp:97 | Adding the header does not wrap if and only if the size is at most 2^32 - 9; the largest size asks for 7 bytes (`RequestWraps`) |
| `HeapRequest.NoWrap` | src/core/kheap.cpp:106-136 | No sum, alignment or comparison of `kmalloc` wraps for a block of the heap that is large enough, for alignments up to 2^22 |
| `HeapMemory.HeaderRoundTrip` | src/core/kheap.cpp:146 | Reading a header back from memory gives the block that was stored |
| `KHeap.KernelHeap.constructor` | src/core/kheap.cpp:229-242 | `kheap_init`: one free block, nothing live, no page allocable |
| `KHeap.KernelHeap.LazyAllocInterval` | src/core/page.cpp:225-234 | All pages of the interval are allocable afterwards, no page is lost, and no page outside is touched |
| `KHeap.KernelHeap.FreeInterval` | src/core/page.cpp:236-249 | Exactly the present pages of the interval are unmapped, with their bytes; all others stay |
| `KHeap.KernelHeap.Search` | src/core/kheap.cpp:99-112 | For any size and alignment the retry loop ends with the least free block by (size, start) among those large enough that its 32-bit test accepts, or with null exactly when the test accepts none |
| `KHeap.KernelHeap.Kmalloc` | src/core/kheap.cpp:91-150 | For any size and alignment: payload, out of memory, or misplaced exactly when the test was wrong about the block, which never happens to a safe request; a payload is at the first aligned address of the best-fitting block, in a live block that holds at most two headers more on either side, and the free set, the live blocks, the header, the pages and all other payloads are as stated afterwards |
| `KHeap.KernelHeap.Store` | src/core/kheap.cpp:142-148 | Every byte of a live payload can be stored to, and no header or other payload is affected |
| `KHeap.KernelHeap.ReleaseBlock` | src/core/kheap.cpp:164-204 | Any nonempty block of the heap is refused if and only if it overlaps a free block, and is otherwise merged with both neighbours |
| `KHeap.KernelHeap.Kfree` | src/core/kheap.cpp:152-208 | Releases exactly the block of the address, merges it, gives back exactly the computed pages and keeps all other headers, payloads and pages |
| `HeapMemory.KmallocKeeps` | src/core/kheap.cpp:142-146 | Storing a new header keeps every other header and payload, and every page of a live block allocable |
| `HeapMemory.KfreeKeeps` | src/core/kheap.cpp:206-207 | Giving pages back keeps the header, the payload and the pages of every block that stays live |
| `HeapRuns.RunTiles` | src/core/kheap.cpp:91-208 | In every state of every run of `kmalloc` and `kfree` the blocks tile the heap; whenever nothing is live the free set is the initial block again |
| `HeapRuns.LiveStays` | src/core/kheap.cpp:91-208 | In one call a live block keeps its place and size unless it is the one freed |
| `HeapRuns.LiveOverRun` | src/core/kheap.cpp:91-208 | Over every run a live block keeps its place and size until it is freed itself |
| `HeapRuns.RunTight` | src/core/kheap.cpp:91-208 | Over every run each live block holds its payload, its header and at most 32 bytes more |
| `HeapRequest.FitTestExact` | src/core/kheap.cpp:97-112 | For any 32-bit size and any alignment below 32 the test of the retry loop tells rightly whether the payload fits if and only if the true end of the aligned payload stays below 2^32, or lies so far beyond it that its wrapped value is still past the end of the block; whenever the test is wrong it accepts a block in which the payload does not fit |
| `HeapRequest.OversizeServed` | src/core/kheap.cpp:97-112 | A request above 2^32 - 9 is accepted at a block that is too small for it |
| `HeapRuns.ZeroReached` | src/core/kheap.cpp:97-138 | One request leaves a heap in which a second one, of 16 bytes at alignment 2^23, is accepted at the last block and served at address 0 |
| `HeapRequest.SafeExact` | src/core/kheap.cpp:97-112 | The test is right about every block of the heap that a request meets if and only if a payload that ends with the heap, moved up to the alignment, still ends below 2^32 (sizes the heap can hold), or the size is at most 2^32 - 9 or the alignment above 2^28 (larger sizes) |
| `HeapRequest.SafeServed` | src/core/kheap.cpp:97-112 | For such a request nothing is accepted exactly when nothing fits |
| `HeapRequest.UsualSafe` | src/core/kheap.cpp:97-112 | Alignments up to 2^22 are such requests for all sizes up to 2^32 - 9 |
| `HeapRequest.AcceptedFits` | src/core/kheap.cpp:97-138 | The first block the loop accepts, if it is accepted rightly, is the best fit, and the payload starts at its first aligned address |
| `HeapRequest.MallocsTight` | src/core/kheap.cpp:106-140 | A served request starts at the first aligned address behind a header; its block ends where the payload or the found block does and holds at most two headers more than it must on either side; all that is left in front and behind is free again, in parts of more than two headers; nothing else changes |
| `HeapRuns.RangeTestExact` | src/core/kheap.cpp:157-158 | The range test of `kfree` is right if and only if it does not accept a block whose end wraps around |
| `PageSteps.AllocFreshInv` | src/core/page.cpp:66-73 | `alloc` of an unmapped entry keeps all paging invariants |
| `PageSteps.AllocMappedInv` | src/core/page.cpp:62-66 | `alloc` of a mapped entry keeps them if and only if the entry stays read-only or its frame is mapped once |
| `PageSteps.LazyAllocInv` | src/core/page.cpp:79-90 | `lazy_alloc` keeps them if and only if the entry is unmapped, stays read-only or is alone on its frame |
| `PageSteps.FreeInv` | src/core/page.cpp:104-117 | `free` keeps them: the frame returns to the stack exactly when its last mapping goes |
| `PageSteps.CloneInv` | src/core/page.cpp:213-221 | One round of `clone_table` keeps them: the count goes up and both entries are read-only |
| `PageSteps.UnshareInv` | src/core/page.cpp:358-365 | Breaking a share keeps them, and fails only for want of a frame |
| `PageSteps.ThroughOnce` | src/core/page.cpp:119-142 | Two pages go through the same entry only in a slot that all directories share |
| `PageFaults.FaultEffect` | src/core/page.cpp:325-369 | A served fault keeps the invariants, changes one entry, makes it present, and leaves the contents of every page; only an undefined page becomes defined |
| `PageFaults.AccessExact` | src/core/page.cpp:325-405 | An access, retried after each fault, goes through if and only if the entry allows it and a frame is left where one is needed; writes to allocable user pages are always allowed |
| `PageFaults.AccessEffect` | src/core/page.cpp:325-369 | Afterwards the processor permits the access and no page has changed |
| `PageFaults.StoreEffect` | src/core/page.cpp:349-366 | A store through a writable entry touches a frame that no other entry maps |
| `PageFaults.LocalEffect` | src/core/page.cpp:119-142 | A change of one entry is seen at exactly one page of one space, or at the same page of all spaces in a shared slot |
| `PageFaults.ZeroFillExact` | src/core/page.cpp:88-89 | Zero filling in `lazy_alloc` leaves all other pages alone if and only if the frame is mapped once or is zero already |
| `PageClone.MakeEffect` | src/core/page.cpp:119-142 | `get_page` with `make` gives the slot a table and changes no view |
| `PageClone.CloneTableEffect` | src/core/page.cpp:209-223 | `clone_table`: both tables show what the old one showed, on the same frames |
| `PageClone.ForkEffect` | src/core/page.cpp:168-207 | `clone_directory` fails only for want of a frame; otherwise all old spaces see what they saw and the new one sees what its source sees below the stack slot, and a copy of the current stack page |
| `PageClone.ForkTables` | src/core/page.cpp:175-185 | Exactly the low-kernel and heap slots of the new directory hold tables that existed before, those of the source |
| `PageClone.ForkFrames` | src/core/page.cpp:197-204 | Every page below the stack slot translates to the same frame as in the source |
| `PageClone.ForkOldFrames` | src/core/page.cpp:168-207 | Every page of every existing directory stays on its frame |
| `PageClone.ForkStackFrame` | src/core/page.cpp:187-194 | The new stack page is on a frame that no page of any space was on |
| `PageForks.ForkEntries` | src/core/page.cpp:168-223 | Every entry of every space after a fork: below the stack slot child and source have the old entry, read-only if it is mapped in a cloned slot; the child's stack page is present, writable and not for users; all other entries are as before |
| `PageRuns.WriteChanged` | src/core/page.cpp:349-366 | A write changes one word of one page, for the writer only unless the slot is shared |
| `PageRuns.LazyAllocChanged` | src/core/page.cpp:79-90 | What `lazy_alloc` shows afterwards, for an unmapped and for a mapped page; all other pages stay |
| `PageRuns.AllocChanged` | src/core/page.cpp:62-77 | `alloc` keeps a mapped page and shows whatever its frame holds on an unmapped one; all other pages stay |
| `PageRuns.FreeChanged` | src/core/page.cpp:104-117 | A freed page is gone and all other pages stay |
| `PageRuns.Refinement` | src/core/page.cpp:168-369 | Over every run of fork, read, write, lazy allocation, allocation and release every space finds in every word of every page what a machine with one independent memory map per space holds there, and a page is mapped exactly when that machine says so; a mapped page keeps its words when it is allocated again |
| `PageRuns.Isolation` | src/core/page.cpp:168-369 | A page of a private slot changes only by what its own space does, whatever forks happen |
| `PageRuns.FramesConserved` | src/core/page.cpp:62-117 | In every reachable state the free stack and the frames in use partition the frames of the start, and every count is the number of entries on the frame |
| `PageRuns.WritableCounts` | src/core/page.cpp:209-223 | In every reachable state a writable entry is the only one on its frame |
| `PageRuns.FreeSpanSees` | src/core/page.cpp:236-249 | Freeing an interval takes exactly the pages with a frame in it away |
| `PageRuns.LazySpanSees` | src/core/page.cpp:225-234 | Making an interval allocable does to each of its pages what one step does, and touches no other page |
| `PageRights.AccessRights` | src/core/page.cpp:325-405 | An access goes through if and only if the rights of the page allow it and a frame is left where one is needed |
| `PageRights.LazyAllocAccess` | src/core/page.cpp:79-90 | After `lazy_alloc(user, rw, fill)`, with a frame left, an access goes through in every space that has the page if and only if it is not a user's or `user` was asked for, and it is no write or `rw` or `user` was |
| `PageRights.AllocAccess` | src/core/page.cpp:62-77 | The same after `alloc(user, rw)` |
| `PageRights.FreeAccess` | src/core/page.cpp:104-117 | After `free` no access to the page goes through in any space |
| `PageRights.ForkAccess` | src/core/page.cpp:168-223 | After a fork, with a frame left, child and source may do with a page below the stack slot what the source might do before, except that the kernel may not write its own pages that were mapped in a cloned slot |
| `PageRights.ForkStackAccess` | src/core/page.cpp:187-194 | The kernel reads and writes the child's stack page without a fault, and users may not use it |
| `PageRights.LazySpanRights` | src/core/page.cpp:225-234 | `lazy_alloc_interval` grants what it was asked for on each of its pages and changes no other rights |
| `PageRights.FreeSpanRights` | src/core/page.cpp:236-249 | `free_interval` takes all rights from the pages with a frame in it and changes no others |
| `PageRights.RightsRun` | src/core/page.cpp:62-369 | Over every run each page of each space has the rights that a simple machine of allocations, releases and forks gives it, whatever faults and shares there were |
| `PageRights.RunAccess` | src/core/page.cpp:62-369 | So accesses go through, with a frame left, exactly as that machine says |
| `PageRights.StartRights` | src/core/page.cpp:284-292 | At the start of paging the kernel reads and writes its own pages, and nothing else goes through |
| `PageBoot.StartInv` | src/core/page.cpp:262-323 | The state with the kernel's pages fixed, the shared tables made and every usable frame on the stack meets the paging invariant |
| `PageBoot.StartSees` | src/core/page.cpp:262-323 | In it the only space sees the kernel's pages at their own addresses, may not touch page 0 and has nothing else |
| `PageBoot.EveryRun` | src/core/page.cpp:62-369 | Over every run from that state: the refinement, a stack and frames in use that partition the usable frames, exact counts, and writable entries alone on their frames |
| `PageShares.ForkShares` | src/core/page.cpp:168-223 | After a fork each private page with a frame is on that frame in parent and child, through two entries, with a count above one |
| `PageShares.AllocLeaks` | src/core/page.cpp:62-66 | Then a writable `alloc` through one of the entries breaks the invariant, and the store it permits without a fault changes the other space's page |
| `PageShares.LazyAllocLeaks` | src/core/page.cpp:79-90 | `lazy_alloc` with zero filling clears the other space's page, and breaks the invariant exactly when it is writable |
| `PageShares.SharingReached` | src/core/page.cpp:168-223 | A run of three events from the start of paging that reaches such a pair of entries |
| `PageShares.ReachableLeak` | src/core/elf.cpp:62-73 | So `alloc` of a page that a forked child has already, as the loader does, lets it store any word into the parent's page |
| `Pager.Paging.constructor` | src/core/page.cpp:262-323 | Paging starts in the state of `PageBoot.Start`, which meets the invariant |
| `Pager.Paging.Alloc` | src/core/page.cpp:62-77 | In place: refines the specification step, and fails exactly when there is no free frame |
| `Pager.Paging.LazyAlloc` | src/core/page.cpp:79-90 | In place: refines the specification step |
| `Pager.Paging.Free` | src/core/page.cpp:104-117 | In place: refines the specification step; the frame stack never overflows |
| `Pager.Paging.GetPage` | src/core/page.cpp:119-142 | In place: refines the specification step; with `make` the page exists afterwards |
| `Pager.Paging.PhysicalFrame` | src/core/page.cpp:150-166 | The frame of a page, 0 when it has none |
| `Pager.Paging.PageFault` | src/core/page.cpp:325-405 | In place: served, out of frames or refused exactly as the specification of the handler |
| `Pager.Paging.Access` | src/core/page.cpp:325-405 | The faulting access terminates after at most two faults and goes through exactly when the specification does |
| `Pager.Paging.Store` | src/core/page.cpp:349-366 | In place: refines the write step of the runs |
| `Pager.Paging.Load` | src/core/page.cpp:336-344 | Returns the word the space shows at the page |
| `Pager.Paging.CloneTable` | src/core/page.cpp:209-223 | The loop over 1024 entries refines the clone of a table |
| `Pager.Paging.CloneDirectory` | src/core/page.cpp:168-207 | The loops over the slots refine the clone of a directory, and fail exactly when it does |
| `Pager.Paging.LazyAllocInterval` | src/core/page.cpp:225-234 | The loop refines the steps on a span of pages |
| `Pager.Paging.FreeInterval` | src/core/page.cpp:236-249 | The loop refines the release of a span of pages |
| `TaskRing.TickRotates` | src/core/task.cpp:466-469 | Passing the turn to `queue_next` rotates the order of turns by one |
| `TaskRing.LeaveSelf` | src/core/task.cpp:341-355 | When the task whose turn it is leaves the queue, the others move up by one |
| `TaskRing.LeaveOther` | src/core/task.cpp:341-355 | When another task leaves, the order of the rest stays |
| `TaskRing.JoinTurns` | src/core/task.cpp:325-339 | A new task gets its turn right after the one `ptr` points to, and no other order changes |
| `TaskState.ForkKeeps` | src/core/task.cpp:178-214 | `fork` keeps the agreement of queues and states and lets the child in right after the task the queue's `ptr` points to |
| `TaskState.ScheduleKeeps` | src/core/task.cpp:216-238 | A tick keeps the agreement, and the task that gets the turn has a saved context |
| `TaskState.SleepKeeps` | src/core/task.cpp:245-285 | `sleep` keeps the agreement if and only if it is not the only running task that puts itself to sleep |
| `TaskState.LoneSleep` | src/core/task.cpp:252-280 | What happens then: the task stays current, nothing is running, and the next tick gives the turn to a sleeping task |
| `TaskState.SleepTurns` | src/core/task.cpp:252-280 | How `sleep` changes the order of turns |
| `TaskState.WakeupTurns` | src/core/task.cpp:287-304 | How `wakeup` changes the order of turns |
| `TaskState.WakeupInv` | src/core/task.cpp:287-304 | `wakeup` keeps the agreement of queues and states |
| `TaskEffects.CheckExact` | src/core/task.cpp:125-157 | ESRCH if and only if there is no such live task; EPERM if and only if there is one, with another owner than the current task's, and that is not root |
| `TaskEffects.ForkEffect` | src/core/task.cpp:178-214 | The child runs with its parent's owner and the saved registers in its own directory, and no other task changes |
| `TaskEffects.TickEffect` | src/core/task.cpp:216-238 | A tick saves exactly the registers of the current task and changes no other task |
| `TaskEffects.SleepEffect` | src/core/task.cpp:245-285 | What `sleep` does to state, signal, registers and error number of each task |
| `TaskEffects.WakeupEffect` | src/core/task.cpp:287-304 | What `wakeup` does to them |
| `TaskEffects.SavedLast` | src/core/task.cpp:178-285 | Over every run the saved registers of a task are those of the last event in which it passed its turn on, or of the fork that made it |
| `TaskEffects.EveryoneLeft` | src/core/task.cpp:163-285 | From the start of the scheduler on there is such an event for every task but the current one |
| `TaskEffects.ResumesWith` | src/core/task.cpp:216-280 | So whoever gets the turn resumes with those registers, and a task that is alone with its own |
| `TaskRuns.TasksKeep` | src/core/task.cpp:178-214 | Over every run tasks are added by forks only, and each keeps its place among them, its owner, its directory and its parent; that pids number them is proved in `Scheduler.Scheduling.GetNextPid` and `Id2Task` |
| `TaskRuns.WaitStep` | src/core/task.cpp:252-299 | The number of turns before a waiting task falls by one with every turn that is passed on, grows by at most one per fork or wakeup, and never when another task sleeps |
| `TaskRuns.BoundedWaiting` | src/core/task.cpp:216-304 | Over every run a running task that nobody puts to sleep gets its turn within as many turns as were before it plus one for each later arrival |
| `TaskRuns.RoundRobin` | src/core/task.cpp:216-238 | Over n ticks each of n running tasks gets one turn in the order of the queue, and then the round starts again |
| `TaskQueues.TaskQueue.Insert` | src/core/task.cpp:325-339 | In place: the circular doubly linked list has the new task between `ptr`, which stays, and its old successor |
| `TaskQueues.TaskQueue.Remove` | src/core/task.cpp:341-355 | In place: the list has lost exactly the task, whose links are cleared unless it was alone, and `ptr` moves on only when it was there |
| `Scheduler.Scheduling.constructor` | src/core/task.cpp:163-171 | One running task with pid 0 and user 0 |
| `Scheduler.Scheduling.Id2Task` | src/core/task.cpp:476-485 | The bare `find_ge` returns exactly the task with the pid, or null if there is none |
| `Scheduler.Scheduling.GetNextPid` | src/core/task.cpp:390-396 | The next pid is the number of tasks, before the counter wraps around |
| `Scheduler.Scheduling.Fork` | src/core/task.cpp:178-214 | In place: refines the specification step and returns the pid of the child, which has the owner of the current task and the registers and directory given |
| `Scheduler.Scheduling.Tick` | src/core/task.cpp:216-238 | In place: refines the specification step, saves the given registers in the task that passes its turn on, and resumes the registers saved in the task that gets it |
| `Scheduler.Scheduling.SleepTask` | src/core/task.cpp:245-285 | In place: refines the specification step with its error codes; a task that puts itself to sleep is left with its registers, and those of the task that gets the turn are resumed; the state stays valid if and only if the specification says so |
| `Scheduler.Scheduling.WakeupTask` | src/core/task.cpp:287-304 | In place: refines the specification step with its error codes |
| `Scheduler.Scheduling.Target` | src/core/task.cpp:125-157 | The task a pid names, after the checks of existence and permission |
| `ElfImage.SegmentSees` | src/core/elf.cpp:59-92 | What a loaded segment leaves at each of its addresses |
| `ElfImage.SegmentExact` | src/core/elf.cpp:59-92 | The image is the one the ELF specification asks for if and only if p_filesz is 0 or at least p_memsz, or the rounded-up start of the zero tail is not above its rounded-down end, or the file bytes cleared by mistake were zero |
| `ElfImage.SegmentElsewhere` | src/core/elf.cpp:59-92 | A segment changes no page outside its own |
| `ElfLoader.LoadedImage` | src/core/elf.cpp:44-93 | After the loop each of several segments without common pages is in memory as the file describes it if and only if it meets its own condition |
| `ElfLoader.LoadedElsewhere` | src/core/elf.cpp:44-93 | Pages outside all loaded segments stay as they were |
| `ElfLoader.LoadElfImage` | src/core/elf.cpp:34-98 | The same for a whole successful call, which returns a nonzero entry point and has loaded at least one segment |
| `ElfLoader.ClearedByte` | src/core/elf.cpp:34-98 | An executable of 84 bytes that is loaded without an error, after which the only byte of its segment reads as 0 instead of 0x7F |
| `ElfFormat.HeaderFields` | src/core/elf.cpp:36-43 | Each field of a file header is read from where `Elf32_Ehdr` puts it |
| `ElfFormat.AcceptedExact` | src/core/elf.cpp:100-124 | A header is accepted if and only if its fields are those of a 32-bit little-endian 386 executable of version 1 with an entry point and program headers of 32 bytes |
| `ElfFormat.HeaderOnto` | src/core/elf.cpp:36-43 | Every sequence of 52 bytes is such a header |
| `ElfFormat.SegmentRead` | src/core/elf.cpp:44-54 | Program header number i, at phoff + 32 * i in the order of `Elf32_Phdr`, is read back field by field |
| `ElfFormat.LoopExact` | src/core/elf.cpp:44-93 | The loop ends without an error if and only if each program header is in the file and what it asks for is user memory and in the file |
| `ElfFormat.LoopError` | src/core/elf.cpp:44-93 | Otherwise the first header that is not so decides between EIO and ENOMEM |
| `ElfFormat.LoadExact` | src/core/elf.cpp:34-98 | The whole call returns the entry point of the header if and only if the header is accepted, some segment is to be loaded and all that are can be |
| `ElfFormat.LoadErrors` | src/core/elf.cpp:34-98 | Which error is returned otherwise |
| `ElfFormat.ImageByFields` | src/core/elf.cpp:34-98 | Each of several segments without common pages is in memory as the offset, address and sizes in its program header say, if and only if no byte of it is cleared by mistake |
| `ElfLoader.AddressSpace.ClearSpace` | src/core/elf.cpp:75-92 | In place: the zero tail, with its 32-bit rounding, refines the specification |
| `ElfLoader.AddressSpace.ReadIn` | src/core/elf.cpp:62-73 | In place: the file bytes, or false exactly when the file ends too early |
| `ElfLoader.AddressSpace.LoadElf` | src/core/elf.cpp:34-98 | The loop over the program headers returns the entry point or the first error, and leaves the memory of the specification |
| `PageAbstraction.AllocIsAllocPage` | src/core/page.cpp:62-77 | `alloc` of a page does to the bytes of a space what the loader's model does, its frame keeping what was in it |
| `PageAbstraction.LazyAllocIsLazyPage` | src/core/page.cpp:79-90 | `lazy_alloc` with zero filling does to them what the loader's model does |
| `PageAbstraction.WriteIsPoke` | src/core/page.cpp:349-366 | A word written, through whatever faults that takes, is its four bytes stored |
| `PageAbstraction.LoaderRun` | src/core/elf.cpp:59-92 | Over every run of these events in which no word is written to a page that is at that moment pending without zero filling, there are old frame contents for which the loader's model of the memory is after every event exactly what the space sees |
| `PageAbstraction.MatchedRun` | src/core/elf.cpp:59-92 | That condition on the writes is necessary as well |
| `PageAbstraction.DefinedFromStart` | src/core/elf.cpp:59-92 | It holds when the pages written to are not pending that way at first, whatever other pages are |
| `PageAbstraction.EntryBacking` | src/core/page.cpp:62-117 | The two flags of an entry behind the heap change as in the heap's model, under lazy allocation, release and fault |
| `PageLoader.WordIsByte` | src/core/elf.cpp:71-88 | Storing a byte is writing the word around it with its other three bytes |
| `PageLoader.SegmentOpsDo` | src/core/elf.cpp:59-92 | The page and byte operations of a segment do what the loader's model of it says, for any old frame contents |
| `PageLoader.LoadOpsDo` | src/core/elf.cpp:44-93 | So do those of all segments of a file |
| `PageLoader.OpsRun` | src/core/elf.cpp:44-93 | A run that performs such operations does to what the space sees what they do to the model |
| `PageLoader.ImageShown` | src/core/elf.cpp:34-98 | A run that loads a file leaves in the pages of the space the memory of the loader's model, and each of several segments without common pages is seen as the file describes it if and only if it meets its condition |
| `PageProgress.OpsTake` | src/core/page.cpp:62-90 | Such a run takes exactly one frame for each page that had none when it was allocated or stored to |
| `PageProgress.OpsGo` | src/core/page.cpp:62-90 | There is a run that performs the operations if and only if the stack holds that many frames, on pages that may be written if they may be used |
| `PageProgress.UserPages` | src/core/elf.cpp:67-92 | After a run of the loader users may read and write all pages that were allocated or reserved |
| `PageProgress.ElfGoes` | src/core/elf.cpp:34-98 | A file that the loader's model accepts is loaded by some run if and only if the stack holds the frames it needs |
| `PageProgress.StartReady` | src/core/page.cpp:262-323 | The pages of the first space are of that kind at the start of paging |

## Left out

- RbTree.Rbt.constructor: each tree object has a sentinel of its own; in the source all trees of one key type share one.
- RbTree.Rbt.FindKth: takes k as a natural number; what the loop does for a negative k is stated by `RbTree.Rbt.KthNegative`.
- RbTree.Rbt.Insert: a node is a fresh object instead of one from the tree's allocator; packing the colour into the parent word is not modelled, and `clear` is left out.
- FreeBlocks.FreeIndex.Add: the node pool is modelled by its two counters, not by addresses.
- KHeap.KernelHeap.Kmalloc: when the 32-bit test accepted a block in which the payload does not fit, only the address is stated, not the state that the misplaced header leaves. Allocation before `kheap_init` is left out.
- KHeap.KernelHeap.Kfree: takes the address of a live payload; what the tests do with any other block of the heap is stated by `KHeap.KernelHeap.ReleaseBlock` and `HeapRuns.RangeTestExact`.
- KHeap.KernelHeap.LazyAllocInterval: of a page-table entry only the flags `allocable` and `present` are modelled here; `PageAbstraction.EntryBacking` ties them to the whole entry, and frames do not run out.
- PageClone.ForkEffect: the copied stack page is that of the current directory, as in the code; it is what the current space sees when its stack page is mapped, which `PageRuns.ForkStep` asks for. The stack is the one page that the constants give it.
- PageRuns.LazyAllocChanged: the step asks that the entry is unmapped, alone on its frame, or left read-only without zero filling; `PageShares.ReachableLeak` and `PageShares.LazyAllocLeaks` show that this is needed. The same holds for `PageRuns.AllocChanged`, and both are for pages outside the fixed low kernel slots.
- PageRuns.Refinement: a page without a frame that is allocated without filling holds unknown words in the simple machine, since the frame keeps its old contents.
- Pager.Paging.FreeInterval: the pages lie above the fixed low kernel slots. `alloc_interval` of `src/core/page.cpp` is the same loop over `Alloc`.
- Pager.Paging.LazyAllocInterval: called when the precondition of `PageRuns.LazyAllocChanged` holds at each page.
- Pager.Paging.GetPage: storage for tables and directories is a counter of fresh addresses; that the kernel heap is itself mapped by tables is not modelled, nor the mirror of the tables that the processor reads.
- Pager.Paging.PageFault: whether the faulting code is user code is one flag, which stands for both the processor's privilege level and the comparison of the instruction address. TLB, control registers and the two scratch window pages are left out, and copying and filling act on frame contents.
- PageBoot.StartInv: the usable frames are a parameter, since reading the boot loader's memory map is left out, and they lie behind the kernel. Their counts start at 0, where the source leaves them unset until the first `alloc` sets them. The new stack of `move_stack` is an `Alloc` event of the runs.
- Scheduler.Scheduling.Fork: asks for fewer than 2^32 - 1 tasks, since pids wrap around after that; the cloned directory and the registers are parameters.
- Scheduler.Scheduling.SleepTask: called only while the state is valid; what follows when the only running task has put itself to sleep is stated by `TaskState.LoneSleep`.
- Context switching, `read_eip`, `move_stack` and entering user mode: a saved context is a value. `exit` is a stub in the source, so zombies only occur in tests of their state.
- ElfLoader.AddressSpace.LoadElf: the file is a sequence of bytes read from its start, with the seek and read rules of the RAM disk; the memory after an error is not described. Here frames do not run out and the address space is not shared while it is loaded; `PageProgress.ElfGoes` counts the frames, and `PageShares.ReachableLeak` says what sharing does.
- ElfImage.SegmentExact: pages are described by bytes; `PageLoader.ImageShown` ties them to `PageState`, where a byte is stored as a word write that keeps the other three bytes.
- Screen, keyboard, interrupt controller, segment and interrupt tables, the file system base classes, signals and number formatting.
