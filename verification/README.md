# Verified models of the kernel's memory management, pipe, futex, sort and file cache

This project models the parts of the kernel where a small slip is hard to see by reading, and proves
what those parts are meant to guarantee. `dafny verify dfyconfig.toml` checks all of it.

**Address spaces.** An address space is an ordered map of areas (runs of pages with one permission)
and a page table. `Areas.dfy` has the lookups and the three gap searches, `AreaEdits.dfy` splitting and
cutting, `AreaFrames.dfy` the agreement between the frames an area records and the page table,
`FlagPass.dfy` which entries `mprotect` rewrites and when their last-level tables exist,
`FrameCounts.dfy` how many recorded pages are on each frame and what dropping some of them leaves in use,
`MunmapPass.dfy` and `AdvicePass.dfy` the loops of `munmap` and `madvise_dontneed`, `FaultCases.dfy` which
area answers a fault and what each kind of fault leaves, `MemorySet.dfy`
the operations on the object: page faults, fork, `mprotect`, `munmap`, `madvise_dontneed`. One predicate,
`Areas.WellFormed`, is used throughout: keys are starts, areas do not run into each other, frames lie
inside their area. `AreaEdits.Info` says what a page is (permission, type, mapping kind, flags, frame),
and the range operations are stated page by page through it. `mprotect` works on the multi-level table of
`PageTable.dfy`; the other operations on the map of entries that such a table stands for.

**Copy-on-write.** `CowFork.dfy` has worlds of processes over counted physical frames. The main result,
`CowRuns.CowRefinesEager`, is about any two runs with the same forks, stores, new areas, pages given up,
protection changes that keep the invariant, and exits, one with copy-on-write fork and one that copies
everything at each fork, with any faults in between: every process reads the same bytes. Both are shown to
refine a machine where every process has memory of its own. `EagerRun.dfy` shows that there is such an
eager run for every copy-on-write run without protection changes. `ForkLoop.dfy` is the loops of `from_existed_user` and
`from_existed_user1`, area by area, for every kind of area: stacks that are left out, shared mappings and
segments that are lent, private mappings that are shared copy on write, and areas that are copied.
`ForkSteps.dfy` shows that a fork without the first two kinds is exactly the fork step of the runs, in
either kernel, and what becomes of lent pages; `ForkKinds.dfy` tells a whole fork by the kinds of areas. `CowAccess.dfy` says which loads and stores get through,
`CowProtect.dfy` exactly when `mprotect` keeps the invariant of the runs, and `CowLeak.dfy` what a store
then shows to other processes.

**Page table.** `PageTable.dfy` has the multi-level table as tables in numbered frames, walked by nine
bits of the page number at a time. It refines a plain map from pages to entries; the proof rests on a
ghost map that gives every table frame its one place in the tree. `UserMemory.dfy` builds on
translation, by the entries such a table hands out: copying to and from user memory across page ends, and
scatter lists.

**Frame allocator.** `FrameAllocator.dfy` has bits packed in 64-bit words, regions, first fit and
contiguous runs, and a conservation theorem over whole runs of calls.

**Pipe.** `Pipe.dfy` has the ring buffer and the two ends as objects, and a state machine of tasks that
read, write, poll and close in any interleaving: no wakeup is lost and the stream is in order.

**Smaller cores.** `Futex.dfy`: waking and requeueing, and an account of every waiter over whole runs.
`QsortR.dfy`: the Shell sort on raw bytes. `FileCache.dfy`: the write cache of a file against a plain
sequence of bytes.

Some things the code might be expected to do, it does only sometimes. Each is stated as an
if-and-only-if, most with a smallest instance where it fails:

- `mprotect` panics exactly when the page range is empty and its start is covered, or when one of the
  entries it is to rewrite has no last-level table. It rewrites the entries of as many pages as an area
  has frames, counted from the start of the area, so a single frame far into an area is enough.
- `mprotect` keeps the invariant behind copy-on-write exactly when the pages whose entries it rewrites are
  mapped, none of them shares its frame or the new permission is not to write, and the write rights carry
  over: no entry remembers a right that is to go, and none passed over still has it.
  The mark that remembers a write right is kept, so a page made read-only is writable again after a fault.
- After `mprotect` of mapped pages a store through a page that may be written shows on no other page
  exactly when none of the pages rewritten shares its frame or the new permission is not to write. After a
  fork a parent that makes its pages writable again stores into its child.
- The child of a fork records the frames of all its pages exactly when no page was lent to it. A page lent
  to a child is not mapped in the child's own children. On a lent page of a mapping every access of the
  child faults, and the fault handler panics.
- A load from an mmap page gets through, after at most one fault, exactly when the page has no frame, shares
  one, or its entry is present; a store exactly when its area is writable and the page has no frame, shares
  one, or its entry has the write right or remembers it. Frames given to a child are mapped by the raw bits of
  the permission, which make an entry neither present nor writable, so a page that a child shares with its
  parent alone can no longer be read or written when the parent has ended first.
- A page fault in a mapping or stack panics exactly when the page is mapped and the area found does not
  record it. After `munmap` that is so exactly for the survivors that had a frame in an area that was cut.
- After `munmap` every frame still mapped is still in use exactly when each has more counts than there are
  recorded pages on it in the areas that were cut; where every page has a frame of its own and the areas
  agree, exactly when the frames of the pages left of those areas have another owner.
- `madvise_dontneed` panics exactly when a page of the range is mapped and no area has it or ends at it.
- A fault on the page just past an area is taken for one inside it (the area test includes the end), and
  the tree is then no longer well formed; otherwise it stays so.
- After `munmap` the survivors of a cut area no longer record their frames although they stay mapped;
  frames and entries agree exactly when no such page had a frame.
- `update_flags` rewrites the entries of the pages that have frames exactly when those are the first
  pages of the area.
- `alloc_pages_from_hint` hands out pages in use exactly when an area reaches across the hint and the
  pages at the hint fit otherwise.
- `translate_va` answers exactly when the last table exists, whether or not the page is mapped.
- Copying out and back gives the bytes back for every content exactly when no two bytes of the range
  are the same physical byte.
- A cleanup of a futex waiter takes it off every queue exactly when it is on none, or the key is the last
  one the waiter was put under; that is its first key unless a requeue has moved it.
- Growing a cached file shows zeros exactly when the buffer was zero there, as it is from an empty cache
  on but need not be in a buffer filled from disk.
- A read from a cached file fails exactly when the file has been cut to before the offset.

Where code and comments disagree, the code is followed: `seek` past the end of a cached file makes the
file longer, an empty write past the end does so too, and `madvise_dontneed` includes its end page.

Addresses, page numbers and counts are unbounded naturals unless a bound matters: `size_t` in the sort
and the words of the bitmap are bounded. Page-table entries are modelled by frame, flags and validity, as
on loongarch64; the differences on riscv64 are listed at the end. Locks are taken once per step; a step of
the pipe machine is what happens under one lock.

## Model

| member | source | states |
|---|---|---|
| Address.IndexesDetermine | os/src/mm/address.rs:50-53 | two page numbers have the same indexes along a walk exactly when their low bits, all the walk looks at, are the same |
| Address.DropStep | os/src/mm/address.rs:50-53 | going one level down adds exactly one index to the part of the page number already walked |
| Address.PagesOfRange | os/src/mm/address.rs:208-218 | the pages from the floor of the first address to the ceiling of the end are exactly those that hold a byte of the range |
| Address.MmapWindow | os/src/config.rs:47-73 | the mmap window is 512 MiB of whole pages below the stacks of 3000 threads |
| RadixTrees.LastTablesSeparate | os/src/mm/page_table.rs:183-240 | two pages share a last-level table exactly when they have the same upper indexes |
| RadixTrees.NeighbourTranslates | os/src/mm/page_table.rs:211-240 | when one page is mapped, the walk reaches an entry for every page of the same last-level table, mapped or not |
| RadixTrees.UntouchedTree | os/src/mm/page_table.rs:183-240 | writes to frames that hold no table leave every translation as it was |
| RadixTrees.WriteMapping | os/src/mm/page_table.rs:244-285 | writing the entry of one page changes the map from pages to entries at that page only, and keeps every table in its one place |
| RadixTrees.GrownMapping | os/src/mm/page_table.rs:183-209 | hanging a fresh zeroed table below an invalid entry changes no translation and keeps the table frames separate |
| RadixTrees.MappedLeaf | os/src/mm/page_table.rs:289-297 | a page is in the map exactly when the walk ends at a valid entry, and then the map has that entry |
| PageTables.FrameMemory.AllocZeroed | os/src/mm/page_table.rs:64-70 | a frame nobody uses and not frame 0, zeroed; no other frame changes |
| PageTables.PageTable.constructor | os/src/mm/page_table.rs:143-151 | a new table maps nothing and touches no frame in use |
| PageTables.PageTable.FindPteCreate | os/src/mm/page_table.rs:183-209 | changes no translation; every table that is new hangs on the way to this page, below the root, and every other table stays where it was and as it was off the way |
| PageTables.PageTable.FindPte | os/src/mm/page_table.rs:211-240 | finds the last-level table exactly when no entry on the way is invalid |
| PageTables.PageTable.Map | os/src/mm/page_table.rs:244-265 | fails exactly when the page is mapped already; otherwise exactly that page now translates to the frame, with every other translation kept even when tables are created |
| PageTables.PageTable.Unmap | os/src/mm/page_table.rs:268-285 | exactly that page is no longer mapped |
| PageTables.PageTable.Translate | os/src/mm/page_table.rs:289-315 | answers exactly when the last table exists; the answer is valid exactly for mapped pages, and is their entry |
| RadixTrees.ReflaggedPage | os/src/mm/page_table.rs:71-83 | after new flags for a run of pages exactly the entries of the run are rewritten, the frame and the two marks kept, and an entry that was empty now maps frame zero |
| PageTables.PageTable.UpdateFlags | os/src/mm/page_table.rs:90-113 | fails exactly when no last-level table is reached; otherwise the entry found, valid or not, gets the flags |
| PageTables.PageTable.UpdateRegion | os/src/mm/page_table.rs:71-83 | succeeds exactly when every page of the run has a last-level table; otherwise it stops at the first that has none, with the entries before it rewritten |
| Ordered.Sorted | os/src/mm/area.rs:150-178 | the keys of a tree in the order a `BTreeMap` hands them out |
| Areas.OverlapsIsSharing | os/src/mm/area.rs:222-231 | the interval test finds exactly the ranges that share a page with an area |
| Areas.AreaOf | os/src/mm/area.rs:233-252 | a covered page's area is found; otherwise the answer is an area that ends exactly at the page, and none only if there is no such area |
| Areas.VmAreaTree.IsFullyContained | os/src/mm/area.rs:193-219 | true exactly when every page of the range is in some area |
| Areas.VmAreaTree.IsOverlap | os/src/mm/area.rs:222-231 | true exactly when some area meets the range |
| Areas.VmAreaTree.FindGapFrom | os/src/mm/area.rs:254-277 | the highest start of that many free pages ending at or below the hint, or none exactly when there is none |
| Areas.VmAreaTree.AllocPages | os/src/mm/area.rs:150-178 | the same for the top of the mmap window |
| Areas.TopGapUnique | os/src/mm/area.rs:150-178 | there is one such answer, so `alloc_pages` and `find_gap_from` at the top agree |
| Areas.VmAreaTree.SearchUp | os/src/mm/area.rs:73-114 | the upward half finds the lowest fit at or above the hint, except through the hole at the hint |
| Areas.VmAreaTree.SearchDown | os/src/mm/area.rs:115-148 | the downward half finds the highest free run in the window or beside an area, or none exactly when there is none |
| Areas.VmAreaTree.AllocPagesFromHint | os/src/mm/area.rs:73-148 | the search starts at the hint, or at the bottom of the window if the hint is below it. The range returned is free exactly when there is no hole there; it is the lowest fit from there up if there is one, and otherwise the highest the downward half finds; none means there is no free run of that length in the window |
| Areas.HintHoleOccurs | os/src/mm/area.rs:85-87 | a well-formed tree where the search hands out a page in use |
| AreaEdits.SplitPage | os/src/mm/area.rs:624-653 | splitting an area changes no page: permission, type, flags and frame stay |
| AreaEdits.SplitWellFormed | os/src/mm/area.rs:624-653 | and leaves a well-formed tree |
| AreaEdits.ProtectedIsSplits | os/src/mm/area.rs:557-623 | cutting in three at once is splitting twice |
| AreaEdits.ProtectedPage | os/src/mm/memory_set.rs:1222-1247 | of one area exactly the pages in the range get the permission |
| AreaEdits.CutPage | os/src/mm/memory_set.rs:98-128 | of one area exactly the pages in the range go, the others keep permission and type |
| AreaEdits.CutWellFormed | os/src/mm/area.rs:519-530 | and the tree stays well formed |
| AreaFrames.AgreeByPage | os/src/mm/area.rs:435-462 | areas and page table agree exactly when each page has the same frame in both |
| FlagPasses.FlagPassExact | os/src/mm/area.rs:429-434 | the pages whose entries `update_flags` rewrites are those with frames exactly when the frames are on the first pages of the area |
| FlagPasses.FirstPagesReached | os/src/mm/area.rs:429-434 | when in every area the frames are on the first pages of the part protected, no entry to be rewritten lacks its table |
| FlagPasses.ReflagStep | os/src/mm/memory_set.rs:1222-1247 | one more area protected is its entries rewritten and no others |
| FlagPasses.FlagPassMisses | os/src/mm/area.rs:429-434 | an area where the wrong page is rewritten |
| MemorySets.PhysMemory.FrameAlloc | os/src/mm/frame_allocator.rs:249-261 | a frame not in use and not frame 0, zeroed, with one owner |
| MemorySets.PhysMemory.Drop | os/src/mm/frame_allocator.rs:50-59 | the last owner frees the frame |
| MemorySets.MemorySet.MapOnePage | os/src/mm/area.rs:435-456 | the page gets a zeroed frame of its own with the rights of the area; nothing else changes |
| MemorySets.MemorySet.UnmapOnePage | os/src/mm/area.rs:457-463 | frame and entry of exactly that page go, and one count on the frame |
| MemorySets.MemorySet.CopyPageOnWrite | os/src/mm/memory_set.rs:1048-1064 | the page gets a frame of its own with the bytes of the shared one, which loses one owner |
| MemorySets.MemorySet.HandlePageFault | os/src/mm/memory_set.rs:948-1086 | for any well-formed tree, each answer told exactly by the space before the call: no area has the page or ends at it, the area that answers is of another kind or empty, the page is mapped without a record (the kernel panics), recorded without mark and only read, or handled; and what is handled is the fault step of the runs |
| FaultCases.AnswersIsFound | os/src/mm/area.rs:233-252 | the area that answers is the last that starts at or below the page, if it does not end before it |
| FaultCases.LazyFault | os/src/mm/memory_set.rs:986-996 | a page without a frame gets a new one that is all zero, with the rights of its area; no other page, frame or count changes |
| FaultCases.SharedFault | os/src/mm/memory_set.rs:1045-1064 | a page that shares its frame gets a new one with the same bytes and the rights of its area, and the shared one loses one owner |
| FaultCases.SoleFault | os/src/mm/memory_set.rs:1068-1076 | a page that has its frame alone keeps it with all its flags, and gets the write right if its entry remembers one |
| MemorySets.MemorySet.PushGivenFrames | os/src/mm/area.rs:401-426 | every page given is mapped to its frame with the raw bits of the permission, neither valid to the hardware nor writable; for copy on write marked, recorded and counted once more, otherwise not; other pages keep their entries |
| CowWorlds.FlagsByBits | os/src/mm/arch/loongarch64.rs:201-217 | the flags that `from` and `from_bits` make of a permission, bit by bit: the second sets neither the valid nor the write bit |
| MemorySets.MemorySet.MarkCow | os/src/mm/memory_set.rs:609-612 | exactly the parent's pages of the area are marked |
| MemorySets.MemorySet.PushMapped | os/src/mm/memory_set.rs:240-251 | every page of the area and no other gets a fresh frame, no two the same |
| MemorySets.MemorySet.CopyBytesFrom | os/src/mm/memory_set.rs:632-639 | the child's frames hold the parent's bytes and no other frame changes |
| MemorySets.MemorySet.ForkArea | os/src/mm/memory_set.rs:590-645 | one round for any kind of area: left out, lent, shared copy on write, or copied, with child, parent, counts and bytes as they then are |
| MemorySets.MemorySet.FromExistedUser | os/src/mm/memory_set.rs:583-648 | for every parent whose shared and copied pages are mapped: the child's areas and entries kind by kind, the parent's marks, one more count on exactly the shared frames, and fresh frames with the same bytes for the copied pages |
| MemorySets.MemorySet.DrainOverlapping | os/src/mm/memory_set.rs:1211-1221 | the areas that meet the range are taken out and no others |
| MemorySets.MemorySet.ProtectOne | os/src/mm/memory_set.rs:1222-1247 | splitting, rewriting the entries and inserting one area succeeds exactly when the range is not empty and the entries to be rewritten have their tables; then the pieces are in and exactly those entries are rewritten |
| MemorySets.MemorySet.Mprotect | os/src/mm/memory_set.rs:1203-1253 | succeeds exactly when the range is not empty or its start not covered, and every entry to be rewritten has a last-level table; then the tree is well formed, the same pages are covered with all they had, exactly those that hold one of the bytes have the permission, and exactly the entries visited are rewritten |
| MemorySets.MprotectFails | os/src/mm/area.rs:429-434 | an area of 513 pages with its only frame on the last, where `mprotect` fails although the range is not empty |
| MemorySets.EmptyRangeOccurs | os/src/mm/memory_set.rs:1207-1209 | an empty page range whose start is covered, where the assertions fail |
| MemorySets.MemorySet.Munmap | os/src/mm/memory_set.rs:83-130 | exactly the pages of the range are no longer covered, survivors keep permission and type, exactly the allocated pages of the range lose their entries, and every page recorded in an area that is cut takes one count from its frame, however many share it; what the call asks for holds again afterwards |
| Munmaps.MunmapSurvivors | os/src/mm/area.rs:519-530 | a page that is left has the permission, type and mapping kind it had; frame and flags too unless its area met the range |
| Munmaps.MunmapAgreement | os/src/mm/memory_set.rs:83-130 | frames and entries still agree exactly when no page outside the range, in an area that is cut, has a frame |
| Munmaps.MunmapStaleEntry | os/src/mm/area.rs:519-530 | the smallest case where they do not |
| Munmaps.MunmapFramesLive | os/src/mm/memory_set.rs:98-128 | in any space every frame still mapped afterwards is still in use exactly when it has more counts than there are recorded pages on it in the areas that are cut |
| Munmaps.MunmapOwnersLeft | os/src/mm/memory_set.rs:98-128 | in a space that agrees, with a frame for every page, that is when the frames of the pages that survive of a cut area have another owner |
| Munmaps.MunmapCovers | os/src/mm/memory_set.rs:98-128 | the frames still recorded afterwards have their counts |
| Munmaps.MunmapPanics | os/src/mm/memory_set.rs:83-130 | after `munmap` of a space that agrees a fault panics exactly on the survivors that had a frame in a mapping or stack that was cut |
| FrameCounts.DropTwice | os/src/mm/frame_allocator.rs:50-59 | dropping the pages of two disjoint parts, one after the other, is dropping both together, with frames that several pages are on |
| Munmaps.MunmapFreesMapped | os/src/mm/area.rs:519-530 | a two-page area where cutting one page frees the frame of the other, which stays mapped |
| MemorySets.MemorySet.MadviseDontneed | os/src/mm/memory_set.rs:1387-1431 | panics exactly when a page from start to end, end included, is mapped and no area is found for it; otherwise the mapped pages lose entry, frame and one count each, and areas, other pages and other counts stay |
| Advices.GiveOneIsStep | os/src/mm/memory_set.rs:1387-1431 | what it does to one page is the give-up step of the runs |
| Advices.GivenUpAgrees | os/src/mm/memory_set.rs:1387-1431 | areas and page table that agree still do afterwards |
| Advices.AgreementFinds | os/src/mm/memory_set.rs:1404-1417 | and in such a space no page makes it panic |
| Advices.ReachedFound | os/src/mm/area.rs:233-252 | an area is found exactly for the pages that an area has or ends at |
| CowInvariant.FaultWellFormed | os/src/mm/address.rs:424-426 | a fault that is handled leaves the tree well formed exactly when the page was covered |
| CowInvariant.FaultPastEndOccurs | os/src/mm/area.rs:538-540 | a fault just past an area that is handled and leaves the tree not well formed |
| CowInvariant.FaultStep | os/src/mm/memory_set.rs:948-1086 | a fault keeps the invariant (counts, marks, agreement) and no process sees a difference |
| CowInvariant.FaultGives | os/src/mm/memory_set.rs:1043-1076 | after a fault that is handled the page is mapped; its entry is present exactly if the page got a frame or the entry was, and writable exactly if the area is and the page got a frame or the entry had or remembered the right |
| CowInvariant.ForkStep | os/src/mm/memory_set.rs:583-708 | a fork keeps the invariant, the child sees what the parent sees and nobody else sees a difference |
| CowInvariant.GiveUpStep | os/src/mm/memory_set.rs:1387-1431 | giving a page up makes it zero for that process only |
| CowInvariant.ExitStep | os/src/mm/memory_set.rs:765-793 | the end of a process is not seen by the others and its frames are freed when nobody else has them |
| CowInvariant.PushStep | os/src/mm/area.rs:57-72 | a new mmap area reads as zeros and changes nothing else |
| CowRuns.FirstWorld | os/src/mm/memory_set.rs:195-201 | a world that meets the invariant, from which runs start |
| CowRuns.RunRefines | os/src/mm/memory_set.rs:583-708 | over any run of either kernel every process sees exactly the memory it would have if nothing were shared |
| CowRuns.CowRefinesEager | os/src/mm/memory_set.rs:583-708 | copy-on-write fork refines eager fork: after the same operations, with any faults in between, all processes read the same bytes; protection changes are among the operations if they keep the invariant |
| EagerRuns.EagerRunExists | os/src/mm/memory_set.rs:583-708 | every copy-on-write run without protection changes, from a world where entries have the rights of their areas, has an eager run with the same visible operations, and every process ends with the same bytes |
| EagerRuns.FirstWorldFull | os/src/mm/memory_set.rs:195-201 | the first world is such a one |
| CowRuns.SharedFramesMarked | os/src/mm/memory_set.rs:596-613 | a frame that two pages hold is marked copy on write and not writable in both |
| CowAccess.StoreEnabled | os/src/mm/memory_set.rs:948-1086 | a store to an mmap page is carried out, after at most one fault, exactly if its area is writable and the page has no frame, shares one, or its entry has the write right or remembers it |
| CowAccess.LoadEnabled | os/src/mm/memory_set.rs:948-1086 | a load exactly if the page has no frame, shares one, or its entry is present |
| CowAccess.LostForGood | os/src/mm/memory_set.rs:1043-1076 | what one fault does not bring back no further fault does |
| CowAccess.ChildLosesPage | os/src/mm/area.rs:401-426 | fork, exit of the parent, access by the child: a page the two shared alone can then be neither read nor written by the child |
| CowAccess.ParentKeepsRights | os/src/mm/memory_set.rs:609-612 | fork, exit of the child: the parent can read and write exactly the pages it could before |
| CowProtects.ProtectKeepsWorld | os/src/mm/memory_set.rs:1203-1253 | `mprotect` keeps the invariant of the runs exactly when the caller's request meets a condition on the space before the call, and nobody sees other bytes |
| CowProtects.SharedSurvives | os/src/mm/arch/loongarch64.rs:188-192 | shared frames stay marked and not writable exactly when no shared entry that is rewritten is given the write right, and no entry is made up that maps a shared frame zero |
| CowProtects.AgreementSurvives | os/src/mm/area.rs:429-434 | frames and entries still agree exactly when no entry is made up for a page without a frame |
| CowProtects.RightsSurvive | os/src/mm/arch/loongarch64.rs:188-192 | entries still grant and remember no write right that their areas lack exactly when the rights carry over: none remembered that is to go, and none passed over that is to go |
| CowProtects.RightComesBack | os/src/mm/arch/loongarch64.rs:160-192 | an entry that remembers a write right and is then made read-only is writable again after `un_cow` |
| CowLeaks.IsolatedIfAlone | os/src/mm/memory_set.rs:596-613 | stores show on no other page of any process exactly when every page that may be written has its frame alone |
| CowLeaks.ProtectIsolates | os/src/mm/memory_set.rs:1203-1253 | after `mprotect` of mapped pages that is so exactly when no page rewritten shares its frame or the permission is not to write |
| CowLeaks.LeakAfterFork | os/src/mm/area.rs:429-434 | fork, then `mprotect` to writable by the parent, then a store by the parent: the child reads the new byte |
| ForkLoops.ForkKeeps | os/src/mm/memory_set.rs:590-597 | leaving an area out or lending it is one more area of the fork done, with no frame counted |
| ForkLoops.ForkShares | os/src/mm/memory_set.rs:598-613 | sharing one private mmap area is one more area of the fork done |
| ForkLoops.ForkCopies | os/src/mm/memory_set.rs:627-640 | and so is copying any other area |
| ForkKinds.AreasByKind | os/src/mm/memory_set.rs:583-648 | the child of `from_existed_user` has exactly the parent's areas that are not stacks, with the same range, permission and type |
| ForkKinds.PagesByKind | os/src/mm/memory_set.rs:590-640 | page by page and by the kind of area: stacks are not mapped; private mappings are on the parent's frames, marked in both, the parent's write right remembered, one count more; shared mappings and segments are mapped and not recorded; all others are on new frames with the parent's bytes |
| ForkKinds.RestByKind | os/src/mm/memory_set.rs:596-613 | no other entry of the parent changes, exactly the frames of private pages have one count more, no byte in use changes |
| ForkKinds.CopiesApart | os/src/mm/memory_set.rs:627-708 | no two copied pages are on the same frame, in either fork |
| ForkKinds.EagerByKind | os/src/mm/memory_set.rs:649-708 | the child of `from_existed_user1` has all areas of the parent; pages of shared mappings are lent and all others copied |
| ForkKinds.EagerRest | os/src/mm/memory_set.rs:649-708 | and the parent and every frame in use stay as they are |
| ForkSteps.ForkIsStep | os/src/mm/memory_set.rs:583-708 | a fork of a space without shared mappings, and for copy on write without stacks and segments, is the fork step of the runs, for either kernel |
| ForkSteps.ChildReady | os/src/mm/memory_set.rs:583-648 | a child made copy on write can be forked in turn |
| ForkSteps.ChildAgrees | os/src/mm/area.rs:401-426 | the child's areas and page table agree exactly when no page of a shared mapping, or for copy on write of a segment, has a frame |
| ForkSteps.LentFaultPanics | os/src/mm/memory_set.rs:591-626 | on a lent page the child's entry is not present, and the fault panics in a mapping and fails in a segment |
| ForkSteps.LentOnce | os/src/mm/memory_set.rs:591-626 | a page of a shared mapping or segment is mapped in the child and not in the child's children |
| ForkSteps.TouchAll | os/src/mm/memory_set.rs:649-673 | the first two phases touch exactly the pages of private mmap areas without a frame, each touch is handled and is a step of the eager run, and afterwards no such page is without a frame |
| ForkSteps.MissingByKind | os/src/mm/memory_set.rs:649-673 | those are the pages of private mappings that have no frame |
| ForkSteps.FromExistedUser1 | os/src/mm/memory_set.rs:649-708 | after those touches the child's areas and entries, the counts and the bytes are those of a fork that copies every area or lends it if it is shared |
| UserMemory.StoreElsewhere | os/src/mm/page_table.rs:1195-1254 | bytes at other physical addresses keep their value |
| UserMemory.RoundTrip | os/src/mm/page_table.rs:1069-1254 | storing and reading back gives every content back exactly when no two addresses are the same |
| UserMemory.DistinctFrames | os/src/mm/page_table.rs:300-315 | pages on distinct frames make the addresses of a range distinct |
| UserMemory.GoodInTable | os/src/mm/page_table.rs:211-339 | through a page table: an address can be read exactly when the last table exists and written exactly when its page is mapped with the write right; the answer is in the frame of the page, or in frame 0 if there is none |
| UserMemory.HandedOutInRam | os/src/mm/page_table.rs:211-240 | if the frames of the mapped pages are in memory, so is all that is handed out |
| UserMemory.CopyOutAndIn | os/src/mm/page_table.rs:1069-1254 | copying out and then in returns the bytes across any page ends and changes nothing outside the range |
| UserMemory.UserSpace.CopyToUserBytes | os/src/mm/page_table.rs:1140-1254 | the bytes before the first address that cannot be written are stored at their translations, in order, and the error names that address |
| UserMemory.UserSpace.CopyFromUserBytes | os/src/mm/page_table.rs:918-1125 | the bytes before the first address that is not translated are read; a buffer too small is filled and refused |
| UserMemory.UserSpace.TranslatedByteBuffer | os/src/mm/page_table.rs:1259-1279 | the slices, each inside one frame, are the translations of the addresses of the range in order, so their lengths add up |
| UserMemory.ReadFrom | os/src/mm/page_table.rs:433-473 | the bytes from the offset on, clipped at the end, whatever the segments |
| UserMemory.TotalLen | os/src/mm/page_table.rs:377-379 | the length of all segments together |
| UserMemory.UserSpace.OutAndIn | os/src/mm/page_table.rs:918-1254 | both copies succeed, the buffer then holds the bytes given, and no byte outside the range has changed, for a range that can be written with a frame of its own for every page |
| UserMemory.ScatterReads | os/src/mm/page_table.rs:433-473 | reading from the scatter list of a range gives the bytes found by translating each address |
| UserMemory.UserSpace.ReadRange | os/src/mm/page_table.rs:433-1279 | building the scatter list and reading from it at an offset gives the bytes that translating every address finds, clipped at the end of the range |
| Words.BitAfterSet | os/src/mm/frame_allocator.rs:81-83 | setting a bit of a word changes that bit only |
| Words.FlagsAfterSet | os/src/mm/frame_allocator.rs:127-129 | setting a bit of the packed words changes one page's flag only |
| Words.CountZerosIsFree | os/src/mm/frame_allocator.rs:153-155 | the zeros of a word are its free pages |
| FrameAllocators.FrameRegionMap.constructor | os/src/mm/frame_allocator.rs:73-90 | every page of the region is free and the padding of the last word is marked used |
| FrameAllocators.FrameRegionMap.Alloc | os/src/mm/frame_allocator.rs:93-107 | the lowest free page, marked and nothing else changed, or none exactly when there is none |
| FrameAllocators.FrameRegionMap.FindRun | os/src/mm/frame_allocator.rs:116-123 | the scan stops at the lowest run of that many free pages, or has seen that there is none |
| FrameAllocators.FrameRegionMap.AllocContiguous | os/src/mm/frame_allocator.rs:110-140 | the lowest run of that many free pages, exactly those marked; none, with nothing changed, exactly when there is no such run |
| FrameAllocators.FrameRegionMap.Dealloc | os/src/mm/frame_allocator.rs:143-150 | exactly that page is free again |
| FrameAllocators.FrameRegionMap.FreePages | os/src/mm/frame_allocator.rs:153-155 | the number of pages not handed out |
| FrameAllocators.FrameAllocator.AddMemoryRegion | os/src/mm/frame_allocator.rs:172-178 | one more region, all of it free; the others as they were |
| FrameAllocators.FrameAllocator.Alloc | os/src/mm/frame_allocator.rs:180-187 | the lowest page of the first region that has one, or none when no region has |
| FrameAllocators.FrameAllocator.AllocContiguous | os/src/mm/frame_allocator.rs:199-206 | the lowest run of the first region that has one; none when no region has, and for no pages when there is no region |
| FrameAllocators.FrameAllocator.Dealloc | os/src/mm/frame_allocator.rs:189-197 | the page goes back to the first region that has it |
| FrameAllocators.FrameAllocator.RemainingFrames | os/src/mm/frame_allocator.rs:208-210 | the free pages of all regions |
| FrameRuns.Conservation | os/src/mm/frame_allocator.rs:208-210 | free pages and pages handed out make up all pages of regions that do not overlap |
| FrameRuns.StepFair | os/src/mm/frame_allocator.rs:180-206 | a call hands out only pages that are not handed out, no page twice, and takes back only pages that are |
| FrameRuns.RunLive | os/src/mm/frame_allocator.rs:172-210 | after any run the bits hold exactly what the calls left handed out |
| FrameRuns.CallsFair | os/src/mm/frame_allocator.rs:172-210 | in any run every call is fair in that sense |
| FrameRuns.FramesConserved | os/src/mm/frame_allocator.rs:172-210 | after any run pages handed out are inside the regions, padding is still marked, and remaining plus handed out is the total |
| PipeStates.ReadOneMore | os/src/fs/pipe.rs:125-143 | reading byte by byte is reading at once, wakeups included |
| PipeStates.WriteOneMore | os/src/fs/pipe.rs:102-123 | writing byte by byte is writing at once, wakeups included |
| PipeRuns.StepKeeps | os/src/fs/pipe.rs:204-440 | every step of any task keeps: waiting readers only on an empty open pipe, waiting writers only on a full one, every sleeper registered or woken, stream in order |
| PipeRuns.RunKeeps | os/src/fs/pipe.rs:204-440 | so every reachable state is like that |
| PipeRuns.NoLostWakeup | os/src/fs/pipe.rs:56-143 | in any run a task asleep has been woken as soon as what it waits for is there or the other end is closed |
| PipeRuns.RegisteredOnce | os/src/fs/pipe.rs:70-84 | in any run nobody is registered twice on a side, and only on a side that is not ready |
| PipeRuns.ClosedWhenDropped | os/src/fs/pipe.rs:87-99 | in any run an end is closed exactly when it has been dropped |
| PipeRuns.NobodyWaitsForDropped | os/src/fs/pipe.rs:204-216 | in any run, once the other end is dropped, a read of an empty pipe and any write are done at once, and who was asleep has been woken |
| PipeRuns.StreamInOrder | os/src/fs/pipe.rs:102-143 | in any run the bytes written are the bytes read and then the bytes in the pipe |
| Pipes.RingPut | os/src/fs/pipe.rs:110-117 | storing at the tail around the ring appends one byte |
| Pipes.RingTake | os/src/fs/pipe.rs:130-137 | moving the head around the ring takes the first byte |
| Pipes.PipeRingBuffer.constructor | os/src/fs/pipe.rs:42-53 | an empty pipe with both ends open and nobody waiting |
| Pipes.PipeRingBuffer.NotifyReadWaiters | os/src/fs/pipe.rs:56-60 | everyone waiting to read is woken and nobody is left waiting |
| Pipes.PipeRingBuffer.NotifyWriteWaiters | os/src/fs/pipe.rs:63-67 | the same for writers |
| Pipes.PipeRingBuffer.RegisterReaderWaker | os/src/fs/pipe.rs:70-78 | the waker is kept, once |
| Pipes.PipeRingBuffer.RegisterWriterWaker | os/src/fs/pipe.rs:80-84 | the waker is kept, once |
| Pipes.PipeRingBuffer.MarkWriteEndClosed | os/src/fs/pipe.rs:87-92 | the end is closed afterwards, the other end and the data stay, and readers are woken the first time |
| Pipes.PipeRingBuffer.MarkReadEndClosed | os/src/fs/pipe.rs:94-99 | the end is closed afterwards, the other end and the data stay, and writers are woken the first time |
| Pipes.PipeRingBuffer.WriteByte | os/src/fs/pipe.rs:102-123 | refused when full, then when nobody can read; otherwise the byte is appended and readers of an empty pipe are woken |
| Pipes.PipeRingBuffer.ReadByte | os/src/fs/pipe.rs:125-143 | the first byte, if there is one; writers to a full pipe are woken |
| Pipes.PipeRingBuffer.AvailableRead | os/src/fs/pipe.rs:145-149 | the number of bytes in the ring |
| Pipes.PipeRingBuffer.AvailableWrite | os/src/fs/pipe.rs:151-154 | the room left |
| Pipes.Pipe.Read | os/src/fs/pipe.rs:271-358 | moves exactly the lesser of what is asked and what is there into the segments in order; end of stream, refusal and waiting as the state says; it is the read step of the runs |
| Pipes.Pipe.Write | os/src/fs/pipe.rs:360-440 | moves exactly the lesser of what is given and what fits; broken pipe, refusal and waiting as the state says; it is the write step of the runs |
| Pipes.Pipe.PushByte | os/src/fs/pipe.rs:384-390 | the unwrapped result of `write_byte` is never an error |
| Pipes.Pipe.Poll | os/src/fs/pipe.rs:224-269 | which events are reported, exactly, and that the waker is registered exactly when the side asked for is not ready |
| Pipes.Pipe.PollReadReady | os/src/fs/pipe.rs:342-351 | ready exactly with data or a closed write end, otherwise registered |
| Pipes.Pipe.PollWriteReady | os/src/fs/pipe.rs:423-433 | ready exactly with room or a closed read end, otherwise registered |
| Pipes.Pipe.Drop | os/src/fs/pipe.rs:204-216 | exactly the ends that this one is are closed afterwards; whoever waited for the other side is woken, and the data stays |
| ShellSort.SinkSwap | os/lwext4_rust/c/ulibc.c:124-143 | exchanging an element that is out of order with the one a gap below keeps the others in order |
| ShellSort.GapOneSorted | os/lwext4_rust/c/ulibc.c:118-147 | after the pass with gap one all elements are in order |
| Elements.SwapList | os/lwext4_rust/c/ulibc.c:137-142 | exchanging bytes exchanges two elements and leaves all others |
| QsortR.FirstGap | os/lwext4_rust/c/ulibc.c:109-113 | the first gap is one of 1, 4, 13, 40 and so on, and less than the number of elements |
| QsortR.SwapBytes | os/lwext4_rust/c/ulibc.c:137-142 | two stretches of bytes change places and nothing else moves |
| QsortR.CompareSwap | os/lwext4_rust/c/ulibc.c:129-142 | one comparison and exchange, inside the array |
| QsortR.Sink | os/lwext4_rust/c/ulibc.c:123-143 | one more element is in order with those a gap apart below it |
| QsortR.GapPass | os/lwext4_rust/c/ulibc.c:120-145 | all elements a gap apart are in order |
| QsortR.NextGap | os/lwext4_rust/c/ulibc.c:146-147 | a third of the gap less one element is exactly the next smaller gap, and after the gap of one element there is none |
| QsortR.Passes | os/lwext4_rust/c/ulibc.c:118-147 | the gaps get smaller and the last pass has the gap of one element |
| QsortR.Qsort | os/lwext4_rust/c/ulibc.c:95-149 | for every length, width and comparison the elements are a permutation and the bytes after them are untouched; with a total preorder they are in order; no byte outside and no overflow |
| FutexQueues.WokenStretch | os/src/sync/futex.rs:102-117 | woken are the matching waiters of a first stretch of the queue, all of it unless enough were woken; the rest stay in order |
| FutexQueues.EveryoneMatches | os/src/sync/futex.rs:102-117 | when everyone matches the first ones are woken |
| FutexQueues.MatchesByBits | os/src/sync/futex.rs:107 | a waiter matches exactly when it has a bit in common with the mask, and with all bits set when it has any bit |
| FutexQueues.FrontTaken | os/src/syscall/process.rs:1272-1301 | when everyone has a bit a requeue wakes the first ones and moves the next ones |
| FutexQueues.WokenConserves | os/src/sync/futex.rs:102-117 | nobody is lost and nobody doubled |
| FutexQueues.WithoutOne | os/src/sync/futex.rs:93-98 | a waiter is taken out exactly if it is that node |
| FutexQueues.WithoutJoins | os/src/sync/futex.rs:93-98 | and taking a node out treats every waiter on its own and keeps the order |
| Futexes.FutexWaitQueue.DrainWaiters | os/src/sync/futex.rs:56-77 | up to that many from the front, in order, and the rest stay |
| Futexes.FutexWaitQueue.RemoveSpecificWaiter | os/src/sync/futex.rs:93-98 | that node goes, the others keep their order |
| Futexes.FutexWaitQueue.WakeMatchingWaiters | os/src/sync/futex.rs:102-117 | up to that many matching waiters are woken in order, the others stay in order, and the count is right |
| Futexes.FutexSystem.Wake | os/src/syscall/process.rs:1355-1373 | as many as match are woken on the key, an empty queue is removed, other keys are untouched; it is the wake step of the runs |
| Futexes.FutexSystem.MoveRest | os/src/syscall/process.rs:1282-1301 | the next waiters go to the end of the second queue, the rest stay on the first |
| Futexes.FutexSystem.Requeue | os/src/syscall/process.rs:1250-1434 | each error exactly when its cause is there, with nothing changed; otherwise woken, moved and remaining waiters in order, the first ones woken and the next ones moved if all have a bit, other keys untouched, and the number woken and moved returned; it is the requeue step of the runs |
| Futexes.FutexSystem.Register | os/src/sync/futex.rs:220-244 | a node goes to the end of the queue of its key, which is the wait step of the runs |
| Futexes.FutexSystem.Cleanup | os/src/sync/futex.rs:266-280 | the node is taken off the queue of the key, which is the cleanup step of the runs |
| FutexRuns.StepAccounted | os/src/syscall/process.rs:1250-1434 | a call keeps every node in at most one place, and removes only a node whose cleanup finds it |
| FutexRuns.NeverDoubled | os/src/sync/futex.rs:56-117 | in any run no node is on two queues, twice on one, or both waiting and woken |
| FutexRuns.NeverLost | os/src/sync/futex.rs:56-117 | in any run a node that has waited is on a queue or woken until its cleanup takes it away |
| FutexRuns.NoBitNeverWoken | os/src/sync/futex.rs:102-117 | in any run a waiter with an empty bitmask is never woken |
| FutexRuns.CleanupComplete | os/src/sync/futex.rs:266-280 | a cleanup leaves its node off every queue exactly when it was on no other queue |
| FutexRuns.OnLastKey | os/src/syscall/process.rs:1282-1301 | in any run a waiter on a queue is on that of the last key it was put under, by waiting or by a requeue that moved it |
| FutexRuns.CleanupInRuns | os/src/sync/futex.rs:266-280 | in any run a cleanup leaves its waiter off every queue exactly when the waiter is on none or the key is the last it was put under |
| FutexRuns.UnmovedKey | os/src/sync/futex.rs:266-280 | that is the key it waited on when no requeue has moved it |
| FutexRuns.CleanupMisses | os/src/sync/futex.rs:266-280 | a waiter that is requeued is still on the other queue after its cleanup |
| FileCaches.WriteRefines | os/lwext4_rust/src/file.rs:854-880 | a cached write is a write to the plain file with a hole of zeros, and keeps the buffer zero past the end |
| FileCaches.TruncateRefines | os/lwext4_rust/src/file.rs:882-890 | cutting or growing is cutting or growing the plain file |
| FileCaches.SeekRefines | os/lwext4_rust/src/file.rs:287-311 | seeking past the end grows the file with zeros, and the offset is then inside |
| FileCaches.ReadRefines | os/lwext4_rust/src/file.rs:330-357 | a read from inside returns the bytes of the plain file, clipped at the end |
| FileCaches.GrowShowsZeros | os/lwext4_rust/src/file.rs:882-890 | growing shows zeros exactly when the buffer was zero there |
| FileCaches.GrowShowsRest | os/lwext4_rust/src/file.rs:882-890 | a buffer of one page with a byte past the end of the file, which growing the file shows |
| FileCaches.CacheRefinesFile | os/lwext4_rust/src/file.rs:287-449 | any run on a new cache returns what the plain file returns and leaves the same bytes |
| FileCaches.WholePages | os/lwext4_rust/src/file.rs:854-890 | in any run the buffer is whole pages |
| FileCaches.VFileCache.WriteBuffer | os/lwext4_rust/src/file.rs:854-880 | the new buffer, size and length, whichever way the bytes are copied; the offset stays |
| FileCaches.VFileCache.TruncateTo | os/lwext4_rust/src/file.rs:882-890 | the new buffer and size |
| FileCaches.VFileCache.SeekTo | os/lwext4_rust/src/file.rs:287-311 | the new offset, and the file grown when that is past the end |
| FileCaches.VFileCache.Read | os/lwext4_rust/src/file.rs:330-357 | fails exactly when the offset is past the end; otherwise how many bytes are read and which, the rest of the caller's buffer untouched, whichever way they are copied |

## Left out

- MemorySets.MemorySet.MapOnePage: framed areas with a frame to be had. The direct mapping of kernel areas and the error when memory runs out are not described.
- CowWorlds.FlagsByBits: the valid, write, user and the two software bits; the others are not told apart.
- EagerRuns.EagerRunExists: for runs without protection changes. `mprotect` rewrites as many entries as an area has frames, and the two kernels have frames on different pages, so a change that keeps the invariant in one need not in the other.
- MemorySets.MemorySet.HandlePageFault: the entry counts as copy on write by its mark, as on loongarch64; on riscv64 the test is on the read and write bits.
- Areas.VmAreaTree.AllocPagesFromHint: for at least one page; a request for no pages is not described.
- MemorySets.PhysMemory.FrameAlloc: never runs out of frames; the bitmap allocator, which does, is modelled on its own in `FrameAllocator.dfy`.
- ForkSteps.FromExistedUser1: for a process of a world in which counts, marks and areas agree, since it goes through the fault handler; attaching the child to a shared memory segment is not part of either fork.
- Pipes.Pipe.Read: one attempt under the lock. That a blocked call tries again after its future is ready is a step of `PipeRuns`.
- Pipes.Pipe.Write: one attempt under the lock, in the same way.
- Futexes.FutexSystem.Requeue: the value compared is a parameter; faults while reading it or mapping the second address are not modelled.
- Entries are those of loongarch64: an entry is valid unless all its bits are zero, and `set_flags` keeps the copy-on-write mark and the remembered write right, which lie above the bits it clears, so `un_cow` leaves both; frames given to a child are mapped with `from_bits` of the permission, which sets neither the valid nor the write bit. On riscv64 the bits of the two coincide and `map` adds the valid bit, a table entry does not set the valid bit through `new_table`, copy on write is read off the read and write bits, and `set_flags` clears the marks.
- Lent pages (shared mappings, shared memory segments) and stacks are not part of the runs, where every mapping is counted; what a fork does with them is stated by the fork itself. An area is a value owned by its tree, not an object.
- File-backed areas (file offsets in `split`, reading pages in at a fault), `mremap`, ELF loading and the kernel's own mappings.
- The bit layout of page-table entries beyond those flags, TLB flushes and control registers; `translate_va` for addresses in the direct map on loongarch64.
- Wrap-around of addresses and page numbers at the top of `usize`.
- `FutexWaitInternalFuture`, timeouts, the scheduler and the sleep list: what a woken task does next.
- The cache table (`insert_fifo`, write-back), the first load from disk and directories, which are not cached.
- Debug builds panic where `copy_from_user_bytes` here refuses a buffer that is too small.
- Signals, system-call plumbing, sockets, devices and drivers.
