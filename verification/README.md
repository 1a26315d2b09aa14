# ManaOS memory, loader, queue and namespace model

A model in Dafny of the parts of the ManaOS kernel that keep tables which must agree with one
another, with proofs of that agreement over all inputs and all runs.

* **Frames.** `FrameAllocator` is the fixed array of tracked ranges, split, trimmed, shifted and
  merged in place. `FrameTable` gives the array operations as functions, `FrameMap` the map from
  frames to state and owner they refine, `FrameCanonical` and `FrameInversion` exactly the runs on
  which the table is the one sorted maximal encoding of that map. `Ranges`, `RangeMaps`,
  `CanonicalRanges` and `RangeArrays` hold what the frame table and the kernel virtual allocator
  have in common.
* **Address spaces.** `PageTree` and `PageTreeCut` describe four-level page tables (section 4.5,
  4-Level Paging, of the Intel 64 and IA-32 Architectures Software Developer's Manual, volume 3A),
  `AddressSpace` maps and unmaps single pages, `Reclaim` is the destroying walk, `SpaceRun` an
  arbitrary life of one space, `PageWalk` the processor's walk through the tables.
* **Processes.** `MappingRecords` and `UserMapping` are the private mappings, `UserHeap` the `brk`
  heap, `UserStackPages` the stack slots, `Elf` and `ElfLoader` the two passes over an image,
  `ElfImage` executables laid out byte by byte.
  `Process` puts them into one address space; `Execve` is what a process asks for when it replaces
  its image; `ProcessTable` runs any number of processes over one allocator; `ProcessView` is what the
  processor then lets them reach.
* **Argument passing.** `StackImage` builds the initial stack, `EntryReader` reads vectors from user
  memory, `StackRoundTrip` joins the two, `StackPlacement` puts the stack into its frames.
* **Ring buffer, kernel virtual ranges, paths.** `RingBuffer` is the single-producer
  single-consumer queue as a state machine of atomic steps; `VirtualAllocator` the kernel's free
  list; `Paths`, `PathOrder` and `Namespace` path normalization and the directory index.

Conventions: tables count in frames and pages, byte addresses appear where the kernel converts
them, in the ELF loader and on the initial stack. A kernel panic is the value `Panic(reason)`, and
contracts tie each reason to its cause; `Exhausted` says that the allocator's state explains it.
Assertions and `expect` calls that cannot fail are Dafny assertions. Free frames have owner
`Nobody`. The crate calls `map_to`, `unmap` and `translate` are written out as walks over page
tables held in frames; memory maps frames to page tables and frames to bytes.

Places where the code does less than one might expect, each with the exact condition:

* Reserving strictly inside a Free range leaves the frame table unsorted for ever
  (`RunKeepsCanonical`, an if and only if over runs). Free entries may then touch without being
  merged, and a run of Free frames across them is missed (`HoleLosesRun`; `RunsInOneEntry` says
  exactly when). `Exhausted(NoFrameRun(n))` therefore means that no n Free frames lie together only
  while no two Free entries touch.
* Adding or reserving frames that are tracked already is not noticed; `AddedExact` and
  `ReservedExact` say exactly when every frame stays recorded once.
* ELF validation accepts executables for which the kernel then panics, in three ways: load segments
  that share a page (`OverlapAccepted`), load segments in the stack region (`StackSegmentAccepted`),
  and a heap start beyond the heap limit (`HighHeapAccepted`). `BuildCandidate` and `TakeCandidate`
  finish no image of these kinds, and stop for no other reason of the image's own. That holds for
  images whose load segments start in the process window; validation also accepts lower ones
  (`LowSegmentAccepted`), which are outside this model. Each lemma lays such an executable out in
  full.
* A directory lists its subdirectories with the sizes they had before the last mount
  (`RefreshDirectories`).
* The ring buffer's `len` is exact for a producer or a consumer, and wraps for a third observer
  (`LenOfRacingLoads`, `LenOvershoots`).

## Model

| member | source | states |
|---|---|---|
| ProcessTables.ProcessTable.Run | src/kernel/syscall.rs:853-1001 | any interleaving of starts, memory calls, execve calls and ends of any number of processes: afterwards exactly the processes run that the requests call for, each answered as who ran at the time demands, each in order and with the program bytes and readable vectors it was last given; the frame map and the contents of all frames outside them are unchanged, so when all have ended everything is as it began; a stop is either a fault of a requested program or a shortage: no Free frame, no run of Free frames that long (unless two Free entries touch), or a full range table |
| ProcessTables.ProcessTable.Handle | src/kernel/syscall.rs:853-913 | one request: who runs afterwards, from which program, and whether the request was carried out are functions of who ran before; a memory call has its effect; every other process is the same object, maps the same pages to the same frames and keeps its bytes |
| ProcessTables.ProcessTable.Replace | src/kernel/syscall.rs:853-1001 | execve end to end: path and vectors are read from the caller's memory; what cannot be read, found or validated, or is not taken by the scheduler, leaves every process as it was, with its exact error; otherwise the process is replaced by one that starts with the vectors read; it never stops for the vectors, and for a high heap start only if the image is taken |
| ProcessTables.ProcessTable.PassesVectorsOn | src/kernel/syscall.rs:1069-1099 | a process that asks for a new image with the vector pointers it was started with passes its own vectors on, as long as its stack pages are as the kernel left them |
| ProcessTables.ProcessTable.Start | src/kernel/process.rs:149-193 | a started process shares no frame and no table with those already there and changes no byte of theirs; a rejected image leaves the table as it was |
| ProcessTables.ProcessTable.End | src/kernel/memory/address_space.rs:337-351 | ending one process gives back exactly its frames and leaves all others valid |
| ProcessTables.ProcessTable.Perform | src/kernel/syscall/memory.rs:19-209 | a memory call of one process has its full effect there, keeps all processes valid and intact, and everything outside them unchanged |
| ProcessTables.FrameUntouched | src/kernel/memory/address_space.rs:64-130 | a frame somebody else holds keeps its record, its table entries and its bytes whenever a space only leaves its surroundings alone |
| ProcessTables.TreeUntouched | src/kernel/memory/address_space.rs:64-130 | another space's whole page-table tree survives such a change, links, owners and disjointness included |
| ProcessTables.ImageUntouched | src/kernel/memory/address_space.rs:64-130 | so do the bytes of its program image and its stack |
| ProcessTables.AllUntouched | src/kernel/memory/address_space.rs:64-130 | all bystanders stay valid and clear of the changed holder's frames |
| ProcessView.NeverWriteAndExecute | src/kernel/memory/user_layout.rs:7-23 | what the processor finds on its walk for any page of any valid process is never both writable and executable |
| ProcessView.HeapUsable | src/kernel/memory/user_heap.rs:98-127 | for every heap address below the break the processor grants user reads and writes and no execution |
| ProcessView.NoSharedFrames | src/kernel/memory/address_space.rs:64-93 | in every process table in order, two different pages that the processor finds, in one process or in two, lie in different frames |
| ProcessView.TablesOutOfReach | src/kernel/memory/address_space.rs:64-93 | no page of any process leads the processor to a page table of any process |
| ProcessView.KernelSeen | src/kernel/memory/address_space.rs:297-313 | outside the window the processor finds for every process, at any time, what the kernel entries it was started with lead to |
| ProcessView.SameKernel | src/kernel/memory/address_space.rs:297-313 | processes started with the same kernel entries see the same kernel |
| ProcessTables.RootUntouched | src/kernel/memory/address_space.rs:297-313 | the kernel entries of a bystander's top-level table survive a change of another holder |
| Processes.LifeCycle | src/kernel/syscall.rs:1003-1060 | validate, build, run any brk/mmap/munmap calls, destroy: the frame map and the contents of every frame in use end as they began; each way to stop is tied to its cause |
| Processes.BuildCandidate | src/kernel/syscall.rs:1003-1060 | the candidate space has the segments in memory with their access rights, code at its entry point, and the vectors on the stack in its slot, where it starts at the exact aligned pointer with their count and addresses, in separate bands, no page writable and executable; what is around it is untouched; it stops only for a page shared by two segments, a segment in the stack region, vectors too long for the stack, or a shortage, and never finishes an image with one of the first two |
| Processes.EntryIsCode | src/kernel/elf/loader.rs:364-391 | once the segments of an accepted image are in memory, its entry point lies on an executable page that is not writable and holds the file's bytes |
| Processes.TakeCandidate | src/kernel/task/scheduler/runtime.rs:792-822 | a candidate becomes a process with an empty heap at the image's heap start and no mappings; it stops exactly when that start is beyond the heap limit |
| Processes.BuildProcess | src/kernel/process.rs:149-193 | both together |
| Processes.UserProcess.Run | src/kernel/memory/user_layout.rs:7-23 | over any run of memory calls the four bands stay separate, no page is ever writable and executable, image and stack pages keep their frames, flags and bytes, and nothing ever asks to map a mapped page |
| Processes.UserProcess.Break | src/kernel/memory/user_heap.rs:98-127 | brk beside live mappings: moves break and extent, the fewest pages that reach it, to any address in the band, with new pages zeroed, writable and not executable, unless no frame is Free, and then keeps the break; any other request changes nothing; records, mappings and image unaffected |
| Processes.UserProcess.Map | src/kernel/memory/user_mapping.rs:306-363 | a mapping beside a live heap: granted at the start its placement demands, the least free one for Any, with exactly the granted range added and filled, user accessible, never executable, writable exactly on request; refused only for the cause its error names, leaving everything as it was except the gap of a replacement that got under way; heap extent and image unaffected |
| Processes.UserProcess.Unmap | src/kernel/memory/user_mapping.rs:370-417 | munmap beside a live heap: succeeds exactly for a range inside one record with a slot for the split |
| Processes.UserProcess.Perform | src/kernel/syscall/memory.rs:19-209 | each memory call has exactly the effect of brk, mmap or munmap; a request for no pages has none |
| Processes.HeapChange | src/kernel/memory/user_layout.rs:7-23 | a change confined to the heap band cannot disturb mapping records, image or bands |
| Processes.MappingChange | src/kernel/memory/user_layout.rs:7-23 | a change confined to the mapping region cannot disturb the heap, the image or the bands |
| Processes.BandsInBytes | src/kernel/memory/user_layout.rs:7-23 | the bands in bytes: heap and mappings meet, the stacks lie above them, and the last slot ends with the window and user space |
| SpaceRuns.CreateRunDestroy | src/kernel/memory/address_space.rs:297-351 | for every sequence of page mappings and unmappings between create and destroy the frame map is restored, and the reported counts are the pages still mapped and the root plus every table ever needed |
| AddressSpace.UserAddressSpace.Create | src/kernel/memory/address_space.rs:297-313 | a new space has the kernel entries of the active table, which no operation on the space ever changes (part of validity), an empty window, and leaves everything else as it was |
| AddressSpace.UserAddressSpace.MapUserPage | src/kernel/memory/address_space.rs:64-93 | exactly one page is added, tables appear exactly on the way to it, only the space's own frames are written, and the links on the way carry at least its write and user bits (part of validity); stops for a mapped page only if it is mapped |
| AddressSpace.UserAddressSpace.UnmapUserPageFor | src/kernel/memory/address_space.rs:103-130 | returns whether the page was mapped; removes exactly it and gives its frame back; a page mapped for another owner trips the ownership assertion |
| AddressSpace.UserAddressSpace.Translate | src/kernel/memory/address_space.rs:252-262 | the four-level walk finds a page exactly when it is mapped, with its frame and flags |
| PageWalk.TranslatesAsTree | src/kernel/memory/address_space.rs:64-93 | the processor's four-level walk, which grants only what all four entries grant, finds a page of the window exactly when the tree maps it, in its frame and with exactly the mapping's rights: no link takes a right away or forbids execution |
| AddressSpace.KernelUnwritten | src/kernel/memory/address_space.rs:64-93 | writing an entry of the window's tables changes no kernel entry of the top-level table |
| AddressSpace.UserAddressSpace.NextTable | src/kernel/memory/address_space.rs:64-93 | the table below an entry, created when absent, behind a link that carries the wanted flags besides those it had |
| PageTree.WritePermits | src/kernel/memory/address_space.rs:64-93 | writing one entry keeps every entry permitted by the link above it, provided the entry is permitted and takes nothing from a table below |
| AddressSpace.UserAddressSpace.MapFreshPage | src/kernel/memory/user_stack.rs:248-272 | take, fill, map: either one new page whose frame holds exactly the given bytes, no other frame written, or everything as before, the frame given back; no frame means none is Free |
| PageTree.TableAdded | src/kernel/memory/address_space.rs:64-93 | linking a zeroed table into an unused entry keeps the tree well formed, permissions included |
| PageTree.PageAdded | src/kernel/memory/address_space.rs:64-93 | linking a frame of its own into an unused leaf entry below links that permit it keeps the tree well formed |
| PageTree.PageRemoved | src/kernel/memory/address_space.rs:103-130 | clearing a leaf entry keeps the tree well formed without the page |
| PageTree.TableRemoved | src/kernel/memory/address_space.rs:447-491 | zeroing and unlinking a childless table keeps the tree well formed without it |
| Reclaim.DestroyUserAddressSpace | src/kernel/memory/address_space.rs:337-351 | gives back every frame of the space and nothing else; user_pages and page_table_pages are the mapped pages and the tables, root included |
| Reclaim.ReclaimTable | src/kernel/memory/address_space.rs:447-491 | removes exactly the subtree below a table and counts it exactly |
| Reclaim.ReclaimChild | src/kernel/memory/address_space.rs:426-445 | removes exactly what lies below one entry, the child table included |
| Reclaim.ReclaimLeafTable | src/kernel/memory/address_space.rs:493-511 | removes exactly the pages of a leaf table and counts them |
| Reclaim.FreeUserDataFrame | src/kernel/memory/address_space.rs:521-538 | trying the four user owners in turn frees any user data frame, so its assertion holds |
| PageTreeCut.CutWindow | src/kernel/memory/address_space.rs:337-351 | walking slots 128 to 255 reaches the whole tree of the space |
| FrameMap.RunRefines | src/kernel/memory/frame_allocator.rs:159-257 | over every run the table refines a map from frames to state and owner: each request is a step of that map |
| FrameMap.StepRefines | src/kernel/memory/frame_allocator.rs:159-257 | add, reserve, allocate and free are each a step of the frame map |
| FrameMap.AllocationRefines | src/kernel/memory/frame_allocator.rs:212-242 | allocation turns exactly n contiguous Free frames, never frame 0, into Used by the owner, or changes nothing |
| FrameMap.ReleaseRefines | src/kernel/memory/frame_allocator.rs:245-257 | an accepted free turns exactly the named frames, all Used by that owner, into Free; a refused one changes nothing |
| FrameMap.SingleRelease | src/kernel/memory/frame_allocator.rs:245-257 | a single frame is accepted exactly when it is Used by that owner |
| FrameMap.AllocationConserves | src/kernel/memory/frame_allocator.rs:261-338 | per state and owner class, allocation moves n pages out of Free into Used by the owner |
| FrameMap.ReleaseConserves | src/kernel/memory/frame_allocator.rs:261-338 | release moves them back |
| FrameTable.ReservedMeaning | src/kernel/memory/frame_allocator.rs:174-186 | reserve changes only its own frames, wherever it cuts Free entries |
| FrameTable.AddedMeaning | src/kernel/memory/frame_allocator.rs:159-166 | add makes exactly its own untracked frames Free |
| FrameTable.AddedExact | src/kernel/memory/frame_allocator.rs:159-166 | add keeps every frame recorded once if and only if none of its frames was recorded |
| FrameTable.ReservedRecords | src/kernel/memory/frame_allocator.rs:174-186 | what reserve records whatever it meets: its frames lose Free and gain Reserved, on top of any other record |
| FrameTable.ReservedExact | src/kernel/memory/frame_allocator.rs:174-186 | reserve keeps every frame recorded once if and only if it meets Free or untracked frames only |
| Ranges.CoalesceMeaning | src/kernel/memory/frame_allocator.rs:680-704 | merging changes the record of no frame, in any order of entries |
| CanonicalRanges.CoalesceCanonical | src/kernel/memory/frame_allocator.rs:680-704 | merging a sorted table leaves maximal runs |
| CanonicalRanges.CanonicalUnique | src/kernel/memory/frame_allocator.rs:680-704 | two sorted maximal-run tables with the same record are equal |
| FrameInversion.RunKeepsCanonical | src/kernel/memory/frame_allocator.rs:159-257 | a run of permitted requests ends with the sorted maximal table if and only if none of its reservations punched a hole |
| FrameInversion.RunInverted | src/kernel/memory/frame_allocator.rs:159-257 | once a Reserved frame is recorded behind a higher frame it stays so for ever: no later request sorts the table |
| FrameInversion.CoalesceCrossed | src/kernel/memory/frame_allocator.rs:680-704 | merging never undoes such a crossing |
| FrameCanonical.StepKeepsCanonical | src/kernel/memory/frame_allocator.rs:463-520 | a request keeps the table canonical if and only if it is not a reservation strictly inside a Free range |
| FrameCanonical.ReserveKeepsCanonical | src/kernel/memory/frame_allocator.rs:463-520 | the same for reservations alone |
| FrameCanonical.CanonicalEncoding | src/kernel/memory/frame_allocator.rs:680-704 | a canonical table is the only canonical table of its frame map |
| FrameCanonical.AllocationComplete | src/kernel/memory/frame_allocator.rs:212-242 | while no two Free entries touch, as on every canonical table, allocation fails if and only if no n contiguous frames are Free |
| FrameCanonical.RunsInOneEntry | src/kernel/memory/frame_allocator.rs:212-242 | on every table: each run of Free frames lies in one Free entry if and only if no two Free entries touch |
| FrameCanonical.CanonicalApart | src/kernel/memory/frame_allocator.rs:680-704 | on a canonical table none do |
| FrameCanonical.AllocationLowest | src/kernel/memory/frame_allocator.rs:212-242 | on a canonical table an allocation takes the lowest run of n Free frames |
| FrameCanonical.ReleaseComplete | src/kernel/memory/frame_allocator.rs:601-678 | on a canonical table a free is accepted if and only if all named frames are Used by the owner |
| FrameCanonical.AllocateThenRelease | src/kernel/memory/frame_allocator.rs:212-257 | on a canonical table allocate then free restores the table exactly |
| FrameCanonical.HoleLosesRun | src/kernel/memory/frame_allocator.rs:493-506 | a run that punches a hole after which seven contiguous Free frames are not found |
| FrameAllocator.NormalizedFrames | src/kernel/memory/frame_allocator.rs:707-735 | a normalized region is exactly the whole frames inside the byte range, from the lowest one allowed |
| FrameAllocator.PhysicalFrameAllocator.AllocateFramesFor | src/kernel/memory/frame_allocator.rs:212-242 | the in-place first fit computes the specified table and paints the frame map; while no two Free entries touch it refuses only if there is no such run, and while no reservation has punched a hole it takes the lowest; it stops if and only if cutting the found entry would exceed the array |
| FrameAllocator.PhysicalFrameAllocator.FreeFramesFor | src/kernel/memory/frame_allocator.rs:245-257 | the in-place free computes the specified table and paints the frame map; it stops if and only if cutting the found entry would exceed the array |
| FrameAllocator.PhysicalFrameAllocator.AllocateFrameFor | src/kernel/memory/frame_allocator.rs:195-201 | one frame; none only when no frame is Free |
| FrameAllocator.PhysicalFrameAllocator.FreeFrameFor | src/kernel/memory/frame_allocator.rs:245-257 | true exactly when the frame was Used by the owner; can stop only then |
| FrameAllocator.PhysicalFrameAllocator.MarkRangeUsed | src/kernel/memory/frame_allocator.rs:522-599 | the in-place split, trim and shift equals the specified table; stops if and only if the pieces of the first Free entry holding the range exceed the array |
| FrameAllocator.PhysicalFrameAllocator.MarkRangeFree | src/kernel/memory/frame_allocator.rs:601-678 | likewise for freeing |
| FrameAllocator.PhysicalFrameAllocator.AddRegion | src/kernel/memory/frame_allocator.rs:159-166 | makes Free exactly the frames whose bytes lie in the given byte range, overlapping or not, frame 0 excepted, and changes no other; a valid table stays valid if and only if none of them was tracked |
| FrameAllocator.PhysicalFrameAllocator.ReserveRegionFor | src/kernel/memory/frame_allocator.rs:174-186 | reserves exactly the frames whose bytes lie in the given byte range, frame 0 included, whatever they were, and changes no other; a valid table stays valid if and only if they were Free or untracked; says exactly when it punches a hole |
| FrameAllocator.PhysicalFrameAllocator.ApartUnlessHoled | src/kernel/memory/frame_allocator.rs:463-520 | while no reservation has punched a hole no two Free entries touch, so no run of Free frames is missed |
| FrameAllocator.PhysicalFrameAllocator.RemoveReservedFromFreeRanges | src/kernel/memory/frame_allocator.rs:463-520 | the in-place loop, which grows the table under its own index, carves every Free entry once |
| FrameAllocator.PhysicalFrameAllocator.Statistics | src/kernel/memory/frame_allocator.rs:261-278 | the counters are the numbers of frames in each state |
| FrameAllocator.PhysicalFrameAllocator.PagesOwnedBy | src/kernel/memory/frame_allocator.rs:340-349 | the counter is the number of frames of the owner |
| RangeArrays.MergeAdjacent | src/kernel/memory/frame_allocator.rs:680-704 | the in-place merge loop equals the recursive merge |
| UserMappings.UserMappings.MapPrivate | src/kernel/memory/user_mapping.rs:306-363 | successes and failures alike keep records disjoint, in the region and equal to the UserMapping pages; a success starts where the placement demands, at the least free start for Any, adds exactly the range, each page holding its bytes, user accessible, not executable and writable exactly on request, and counts what it replaced; each refusal has the cause its error names: no start, no record slot, no room to split, a failing initializer or fewer Free frames than pages; failed Any and FixedNoReplace leave records, pages and data frames as before, a failed FixedReplace the old state minus the overlap |
| UserMappings.UserMappings.UnmapRange | src/kernel/memory/user_mapping.rs:370-417 | succeeds if and only if one record holds the range and a split finds a slot; removes exactly the range |
| UserMappings.UserMappings.ReplaceOverlappingPages | src/kernel/memory/user_mapping.rs:614-669 | after a passed preflight the loop, even when it meets records it has just split, removes exactly the overlap, returns its page count, and leaves an empty slot |
| UserMappings.UserMappings.CutRecord | src/kernel/memory/user_mapping.rs:713-753 | a cut record and its pages shrink together |
| UserMappings.UserMappings.StartForPlacement | src/kernel/memory/user_mapping.rs:562-582 | the start or the exact refusal of each placement |
| UserMappings.MapPages | src/kernel/memory/user_mapping.rs:456-544 | maps and fills all pages, or rolls back to the pages before, at whichever page it failed: because its initializer failed there, or because the Free frames did not suffice |
| UserMappings.InitializeLengthPresent | src/kernel/memory/user_mapping.rs:765-777 | the per-page initialization length exists for every page of a request, so the early return that would leak a frame is unreachable |
| UserMappings.PageCountExact | src/kernel/memory/user_mapping.rs:765-771 | the page count of a request is the number of pages its bytes need, and missing exactly for no bytes and beyond 64 bits |
| UserMappings.InitializeLengthExact | src/kernel/memory/user_mapping.rs:773-777 | every page but the last is initialized in full, the last one up to the end of the request |
| MappingRecords.NextAvailableStart | src/kernel/memory/user_mapping.rs:671-699 | the jumping search ends with the least free start from the preferred one on, or nothing exactly when none fits |
| MappingRecords.RangeOkExact | src/kernel/memory/user_mapping.rs:63-73 | a range is accepted exactly when it has pages and all of them lie in the mapping region |
| MappingRecords.SplitSlotExists | src/kernel/memory/user_mapping.rs:584-612 | while the preflight balance holds, a record that must be split finds an empty slot |
| MappingRecords.ReplaceDone | src/kernel/memory/user_mapping.rs:614-669 | when the loop is through, the range is free, an empty slot is left and every other page keeps its source |
| MappingRecords.TrimmedTracks | src/kernel/memory/user_mapping.rs:713-753 | trimming, splitting or dropping a record removes exactly the given pages from what the table tracks |
| MappingRecords.TrimmedActive | src/kernel/memory/user_mapping.rs:584-612 | the number of active records changes by what remains of the cut record |
| MappingRecords.ReplaceFitsExact | src/kernel/memory/user_mapping.rs:584-612 | the preflight passes if and only if the records that start below the range and those that end above it, which is what cutting leaves, are fewer than the 32 slots |
| UserHeaps.UserHeap.ProcessBreak | src/kernel/memory/user_heap.rs:98-127 | heap pages are exactly [base, mapped_end), each of them writable, user accessible and not executable, and reach the break; after an accepted request mapped_end is the least page end that reaches it, also after an earlier shortage; a failure means no frame is free |
| UserHeaps.UserHeap.MapNewPages | src/kernel/memory/user_heap.rs:129-163 | growth maps exactly the missing pages, each of them zeros, writable and not executable, keeping what it got on a shortage |
| UserHeaps.UserHeap.UnmapOldPages | src/kernel/memory/user_heap.rs:165-194 | shrinking unmaps exactly the pages above the new end |
| UserStackPages.AllocateUserStack | src/kernel/memory/user_stack.rs:96-163 | the stack is mapped in its slot, page by page, to contiguous frames, writable and not executable, and nothing else changes |
| UserStackPages.SlotsApart | src/kernel/memory/user_layout.rs:16-19 | stacks in different slots keep apart with an unmapped page between them, inside the window |
| UserStackPages.FitsSlotExact | src/kernel/memory/user_stack.rs:111-115 | a stack may take one to 254 pages of its slot of 256 |
| StackImage.StackCursor.Prepare | src/kernel/memory/user_stack.rs:175-238 | overflows exactly when the computed pointer falls below the stack; otherwise both vectors lie in the stack unclobbered and the pointer is 16-byte aligned |
| StackImage.FinalPointerExact | src/kernel/memory/user_stack.rs:175-238 | the stack pointer is the last multiple of 16 below the two arrays, which end at the last multiple of 8 below the strings |
| StackImage.StackCursor.PushStrings | src/kernel/memory/user_stack.rs:352-366 | strings pushed from last to first stay readable at the returned pointers |
| StackImage.StackCursor.PushPointerArray | src/kernel/memory/user_stack.rs:368-402 | the words and a null word lie from the returned address on; nothing above changes |
| StackRoundTrip.RoundTrip | src/kernel/syscall.rs:1069-1099 | reading a prepared stack with the execve reader returns the same vectors in order |
| StackRoundTrip.PrepareReadable | src/kernel/memory/user_stack.rs:175-238 | stops exactly when the block does not fit; otherwise the reader gets the same vectors from the returned pointers in every user memory that shows the stack; the argument count is theirs, and the stack pointer is aligned, in the stack, below both arrays, which do not overlap, and exactly where the block ends |
| StackPlacements.PrepareStack | src/kernel/memory/user_stack.rs:175-238 | the block lies in the frames of the mapped stack, whatever they held before, and is read back through the process's own pages; count, pointers and stack pointer are those of the vectors; no other frame is written |
| StackPlacements.ProcessReadsArguments | src/kernel/syscall.rs:1069-1099 | a reader that sees a process's readable pages, and no executable one, gets the vectors the process was started with |
| StackPlacements.ReadableBytesRead | src/kernel/memory/paging.rs:73-76 | such a reader exists for any pages: it sees exactly the bytes of those mapped user accessible and non-executable |
| StackPlacements.FourPagesFit | src/kernel/syscall.rs:1003-1060 | vectors within the limits always fit the four pages of execve |
| StackRoundTrip.PassOn | src/kernel/syscall.rs:1003-1060 | what the reader accepts from one image it reads again, unchanged, from the pointers returned for the stack of the next, in any slot and any memory showing it, with the right count and stack pointer; building never overflows; what it refuses is refused with the same error |
| EntryReader.AcceptedStagingFits | src/kernel/syscall.rs:1069-1099 | every accepted staging meets the counts, the NUL and the fit assertions of the stack builder on four pages |
| EntryReader.ReadFromBounds | src/kernel/syscall.rs:1152-1220 | an accepted vector is NUL free, within the entry limit, and its bytes are counted exactly against the shared limit |
| EntryReader.ListExact | src/kernel/syscall.rs:1152-1220 | a list of strings is read if and only if memory holds little-endian pointers to them and then a null, each string with its NUL in readable user memory, within the entry and byte limits |
| EntryReader.ListRefused | src/kernel/syscall.rs:1152-1220 | a list is refused only behind entries that could be taken: as too long for one entry too many or too many bytes, as a bad address for a pointer or a string that cannot be read |
| EntryReader.StagingExact | src/kernel/syscall.rs:1069-1099 | the two vectors are taken if and only if memory holds them, a null array standing for none, with at most eight entries each and 4096 bytes together |
| EntryReader.StagingRefused | src/kernel/syscall.rs:1069-1099 | a refusal has its cause in the arguments or, when those can be taken, in the environment |
| EntryReader.PathExact | src/kernel/syscall.rs:1122-1128 | a path is read if and only if memory holds its characters and a NUL within the limit; otherwise the address is bad |
| EntryReader.CopyStaging | src/kernel/syscall.rs:1069-1099 | the staging code computes the specified reading of path and vectors, the first error included |
| EntryReader.EntryPath | src/kernel/syscall.rs:1122-1128 | the path found is the bytes in memory up to their NUL, resolved against the working directory; it is canonical, so it starts with a slash |
| Execves.ReadRequest | src/kernel/syscall.rs:853-874 | reading, looking up and validating in turn give the program asked for, or the first failure |
| Execves.GrantedExact | src/kernel/syscall.rs:853-874 | a call is granted if and only if its memory holds the path and both vectors, the path resolves to a file, and the image is accepted; the program is that image with those vectors, four stack pages, in that slot |
| Execves.DeniedExact | src/kernel/syscall.rs:853-874 | each refusal if and only if its cause: no such file, an image that is not accepted, or a path, a vector or a working directory that cannot be had |
| Execves.RequestedStartable | src/kernel/syscall.rs:1003-1060 | whatever the reader accepts meets the demands of the stack builder, and the block fits the four pages |
| Execves.CandidateReasons | src/kernel/syscall.rs:1003-1060 | so a candidate stops only for its segments, never for its vectors |
| EntryReader.CopyVector | src/kernel/syscall.rs:1152-1178 | the vector loop computes the specified reading, errors included |
| EntryReader.CopyCString | src/kernel/memory/user_pointer.rs:52-66 | the byte loop returns the bytes before the first NUL within the limit, or nothing |
| EntryReader.ReadStringFinds | src/kernel/memory/user_pointer.rs:52-66 | a NUL-terminated string in readable memory is read back as it is |
| EntryReader.ReadStringExact | src/kernel/memory/user_pointer.rs:52-66 | a string is read if and only if memory holds it at the pointer followed by a NUL within the limit |
| LittleEndian.DecodeEncode | src/kernel/memory/user_stack.rs:424-432 | decoding an encoded word gives the word |
| ElfLoader.LoadUserElf | src/kernel/elf/loader.rs:243-302 | the mapping pass returns exactly what the validation pass says, errors included; accepted segments hold file bytes then zeros, user accessible, writable and executable exactly as their flag bits say, no page both, and nothing else is mapped; it stops for a shared or a stack-region page only if there is one, and never finishes an accepted image that has one |
| ElfLoader.MapLoadSegment | src/kernel/elf/loader.rs:315-362 | a segment's pages are mapped one after the other with the access its flag bits say and filled with its file bytes and zeros, byte by byte, earlier segments undisturbed; its only error needs file bytes outside the image |
| ElfLoader.CopySegmentPage | src/kernel/elf/loader.rs:423-470 | a zeroed page becomes the segment's file bytes followed by zeros |
| ElfLoader.LoadedBelowHeap | src/kernel/elf/loader.rs:206-212 | everything an accepted image maps lies below its heap start |
| ElfLoader.LoadedNeverBoth | src/kernel/elf/loader.rs:403-411 | no page of an accepted image is writable and executable |
| ElfLoader.ContentIsSegment | src/kernel/elf/loader.rs:423-480 | each byte of a page is the file byte at its offset inside the file part of the segment and zero elsewhere; the page bits are the segment's flag bits |
| ElfImages.ExecutableParses | src/kernel/elf/loader.rs:534-556 | parsing undoes the layout: for all entry points, program headers and contents that fit the format, the entry, the table and every header come back |
| ElfImages.OverlapAccepted | src/kernel/elf/loader.rs:502-532 | for every user page there is an executable the validation pass accepts although two of its segments share that page |
| ElfImages.StackSegmentAccepted | src/kernel/elf/loader.rs:502-532 | for every page of the stack region there is an accepted executable with a segment there |
| ElfImages.HighHeapAccepted | src/kernel/elf/loader.rs:502-532 | for every page from the last heap page to the stack region there is an accepted executable whose heap would start beyond the heap limit |
| ElfImages.LowSegmentAccepted | src/kernel/elf/loader.rs:502-532 | for every page below the process window there is an accepted executable with a segment there |
| Elf.LoadMetadata | src/kernel/elf/loader.rs:502-532 | the validation loop computes the specified scan, first error included |
| Elf.AcceptedImage | src/kernel/elf/loader.rs:502-532 | an image is accepted if and only if it parses, its entry lies in an executable load segment, and every load segment is non-empty, page aligned, readable, never writable and executable, with its file bytes in the file and room after it in user space; the heap starts at the largest rounded segment end |
| Elf.ScanExact | src/kernel/elf/loader.rs:364-391 | the scan succeeds exactly when every load segment is loadable, and gathers whether there was one, whether one carries the entry, and the largest end |
| Elf.RefusedImage | src/kernel/elf/loader.rs:502-532 | a refused image is named by what is wrong: the file header, an entry outside user space, the first fault of its first bad load segment, an entry in no executable segment, or no load segment |
| Elf.ParseExact | src/kernel/elf/parser.rs:67-127 | parsing succeeds if and only if the magic, class, order, version, type, machine, sizes and table bounds are right byte by byte, and yields the entry, offset and count bytes |
| Elf.HeaderExact | src/kernel/elf/parser.rs:217-246 | each program header is the seven little-endian fields at its place in the table |
| Elf.OnPageExact | src/kernel/elf/loader.rs:315-362 | a segment is on the pages that hold one of its bytes |
| Elf.RoundedEndExact | src/kernel/elf/loader.rs:206-212 | the heap page after a segment is the first past its last byte |
| Elf.ParsedTableInside | src/kernel/elf/parser.rs:114-127 | after a successful parse every program header entry lies in the file, so the iterator's out-of-bounds error is unreachable |
| RingBuffer.Fifo | src/kernel/sync/ring_buffer.rs:21-52 | under every interleaving of producer and consumer steps, items popped then items queued are the items pushed, in order |
| RingBuffer.SlotsAreExclusive | src/kernel/sync/ring_buffer.rs:21-52 | push never overwrites a live slot, pop always finds an item, and the two sides never touch one slot at once |
| RingBuffer.FullWhenRefused | src/kernel/sync/ring_buffer.rs:21-36 | whatever the consumer does meanwhile, a push is refused if and only if the queue was full when the producer loaded the tail |
| RingBuffer.EmptyWhenRefused | src/kernel/sync/ring_buffer.rs:39-52 | whatever the producer does meanwhile, a pop finds nothing if and only if the queue was empty when the consumer loaded the head |
| RingBuffer.RunInv | src/kernel/sync/ring_buffer.rs:21-52 | the queue invariant, stale loads included, holds in every reachable state |
| RingBuffer.StepInv | src/kernel/sync/ring_buffer.rs:21-52 | every micro-step keeps it |
| RingBuffer.LenOfRacingLoads | src/kernel/sync/ring_buffer.rs:56-64 | the length computed from two racing loads is the length at the first load less the pops completed in between, wrapped at the capacity |
| RingBuffer.LenForConsumer | src/kernel/sync/ring_buffer.rs:56-64 | with no pop completed in between, as when the consumer asks, it is the length at the first load |
| RingBuffer.LenForProducer | src/kernel/sync/ring_buffer.rs:56-64 | with no push completed in between, as when the producer asks, it is the length at the second load |
| RingBuffer.LenOvershoots | src/kernel/sync/ring_buffer.rs:56-64 | for every capacity: one whole push and one whole pop between the loads make an empty queue look all but full |
| VirtualAllocator.KernelVirtualRangeAllocator.AllocatePages | src/kernel/memory/virtual_allocator.rs:77-97 | fails if and only if no run of free pages is long enough; takes exactly the pages it returns, the lowest such run |
| VirtualAllocator.KernelVirtualRangeAllocator.FreePagesAt | src/kernel/memory/virtual_allocator.rs:100-142 | accepts if and only if the range is managed, none of it is free, and a slot is left; double and overlapping frees are refused |
| VirtualAllocator.KernelVirtualRangeAllocator.RemainingPages | src/kernel/memory/virtual_allocator.rs:145-151 | counts the free pages |
| VirtualAllocator.NeighboursSuffice | src/kernel/memory/virtual_allocator.rs:100-142 | checking two neighbours is equivalent to checking overlap with every free page |
| VirtualAllocator.RestoredOk | src/kernel/memory/virtual_allocator.rs:170-189 | inserting and merging keeps the list sorted, disjoint, coalesced and in the managed range |
| VirtualAllocator.AllocateThenFree | src/kernel/memory/virtual_allocator.rs:77-142 | giving back what was allocated restores the list exactly |
| VirtualAllocator.KernelVirtualRangeAllocator.Run | src/kernel/memory/virtual_allocator.rs:77-151 | over every run of allocations and releases, remaining pages plus the pages handed out and not given back are the managed pages; every granted range was outside what was out and the lowest that was, and every accepted release inside it; each refusal has its exact cause |
| VirtualAllocator.KernelVirtualRangeAllocator.Answered | src/kernel/memory/virtual_allocator.rs:77-142 | one request of such a run: free and outstanding pages go on partitioning the managed range |
| Paths.NormalizePath | src/kernel/filesystem/node.rs:89-114 | the segment stack loop computes the normal form |
| Paths.NormalIdempotent | src/kernel/filesystem/node.rs:89-114 | normalizing twice is normalizing once |
| Paths.NormalSegment | src/kernel/filesystem/node.rs:89-114 | a plain segment is appended behind a slash |
| Paths.NormalDot | src/kernel/filesystem/node.rs:89-114 | empty segments and a single dot change nothing |
| Paths.NormalUndoes | src/kernel/filesystem/node.rs:89-114 | two dots take back the plain segment before them |
| Paths.NormalAtRoot | src/kernel/filesystem/node.rs:89-114 | two dots at the root stay there |
| Namespace.NormalParent | src/kernel/filesystem/node.rs:89-114 | on every path two dots lead to the parent of the normal form, and stay at the root |
| Namespace.NormalIsLawful | src/kernel/filesystem/node.rs:89-114 | the normal form satisfies the laws for leading slashes, empty segments, dots, two dots and plain segments on all paths |
| Namespace.NormalIsUnique | src/kernel/filesystem/node.rs:89-114 | it is the only function that does |
| Paths.NormalFixedPoints | src/kernel/filesystem/node.rs:89-114 | results are canonical absolute paths, and exactly those are left unchanged |
| Paths.ResolveNormalized | src/kernel/filesystem/service.rs:180-186 | resolving against a normalized directory equals resolving against the raw one |
| Paths.ResolveChains | src/kernel/filesystem/service.rs:180-186 | successive relative resolves equal one normalization of the joined path |
| Namespace.ResolveParent | src/kernel/filesystem/service.rs:180-186 | resolving two dots against a directory gives its parent |
| Namespace.VirtualFileSystem.MountNode | src/kernel/filesystem/namespace.rs:67-79 | after every mount keys are canonical and closed under parent, each directory lists exactly its direct children once, in order, with the sizes subdirectories had before the mount, and other files are untouched |
| Namespace.VirtualFileSystem.EnsureParentDirectories | src/kernel/filesystem/namespace.rs:122-142 | adds exactly the missing ancestors |
| Namespace.VirtualFileSystem.RefreshDirectories | src/kernel/filesystem/namespace.rs:144-163 | after refreshing one directory after another every listing is right and in order of names, although listings are built from nodes already replaced; the metadata shown is that of before the refresh, subdirectory sizes included, because a directory comes before its subdirectories |
| Namespace.ChildPath | src/kernel/filesystem/namespace.rs:144-163 | a child's path is its directory's, a slash and its name, so it comes later in path order |
| PathOrder.BelowExact | src/kernel/filesystem/namespace.rs:165-182 | the order of names and paths is decided by the first character in which they differ, or by one ending |
| Namespace.VirtualFileSystem.CollectDirectoryEntries | src/kernel/filesystem/namespace.rs:165-182 | names exactly the direct children, once each, in increasing order, with their metadata |
| Namespace.VirtualFileSystem.UpsertMount | src/kernel/filesystem/namespace.rs:108-120 | one mount record per path, replaced or appended |
| Namespace.DirectChildIs | src/kernel/filesystem/namespace.rs:196-209 | for all paths the string test finds a name exactly for a path one segment below the directory, and it is the last segment |
| Namespace.ChildHasParent | src/kernel/filesystem/namespace.rs:185-209 | on canonical paths the string test and the parent operation agree: a name is found if and only if the path is not the root and its parent is the directory |
| Namespace.ListedExactly | src/kernel/filesystem/namespace.rs:165-182 | a directory lists exactly the last segments of the paths whose parent it is |
| Namespace.MetadataExact | src/kernel/filesystem/node.rs:36-53 | directories, devices and files are told apart, directories are never writable, and the size is that of the file or the number of entries |
| Namespace.ParentOfRender | src/kernel/filesystem/namespace.rs:185-194 | on canonical paths the string operation drops the last segment |

## Left out

- Scheduler, tasks, waiting and exiting, preemption, file descriptors, devices, RAM and FAT files, ACPI, interrupts and other architecture code: no tables that must agree, or code outside this model.
- ProcessTables.ProcessTable.Replace: does not model closing descriptors or the trap frame; the caller's memory, the files, the next stack slot and the scheduler's answer are parameters.
- ProcessTables.ProcessTable.Run: user code itself does not run, so stores into a process's own pages are not requests; the memory an execve call is read from is arbitrary.
- Frame contents: what the kernel writes (page tables, zeroed heap, mapping and ELF pages, file bytes, the initial stack); stack pages are not zeroed by the kernel.
- ElfLoader.LoadUserElf: asks load segments to start at the window base 0x4000_0000_0000 or above; lower segments would be mapped through kernel tables outside the process window.
- ElfLoader.MapLoadSegment: asks the same of its segment.
- Processes.BuildCandidate: asks the same of the program's image.
- Processes.BuildProcess: asks the same.
- Processes.LifeCycle: asks the same of the program's image.
- `regions` and `total_bytes` of the frame allocator: a side table that allocation never consults.
- Saturating and wrapping arithmetic of counters: the counts are proved to be below the limits at which they would matter, or are unbounded here (reclaim counts, load segment count).
- Page table flags PRESENT and HUGE_PAGE, TLB flushes and CR3 switches: an entry is unused or links a frame; huge pages never arise in the window.
- Kernel page tables below the copied top-level entries: arbitrary contents, never written by the operations modelled here.
- `validate_user_mapping` and the boot self-checks: single loops over `Translate`.
- RingBuffer.Fifo: steps interleave in one order all agree on; acquire and release orderings weaker than that are not modelled.
- Reuse of stack slots: the slot is a parameter below 256 instead of a growing counter.
- File system reads, the bytes of mapped files and UTF-8 checks of user strings: inputs or left to the caller.
