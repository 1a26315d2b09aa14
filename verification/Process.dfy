/** A user process: one address space shared by its ELF image, its stack, its `brk` heap and its
    private mappings, from creation to reclamation. */
module Processes {
  import opened Machine
  import opened LittleEndian
  import opened FrameTable
  import opened FrameMap
  import opened FrameAllocator
  import opened PageTree
  import opened AddressSpace
  import opened Reclaim
  import opened MappingRecords
  import opened UserMappings
  import opened UserHeaps
  import opened UserStackPages
  import opened Elf
  import opened ElfLoader
  import opened StackImage
  import opened EntryReader
  import opened StackRoundTrip
  import opened StackPlacements

  /** Each kind of page keeps to its own band of the address space, and none is writable and
      executable at once. */
  ghost predicate Banded(pages: Pages, heapBase: nat) {
    forall page :: page in pages ==> InOwnBand(page, pages[page].owner, heapBase) && WriteOrExecute(pages[page].flags)
  }

  predicate InOwnBand(page: nat, owner: FrameOwner, heapBase: nat) {
    match owner
    case UserElf => page < heapBase
    case UserHeap => Within(page, heapBase, HEAP_END_PAGE)
    case UserMapping => Within(page, MAPPING_BASE, MAPPING_END)
    case UserStack => STACK_REGION_PAGE <= page
    case _ => false
  }

  /** The bands in bytes: programs from the start of the window, the heap up to where the mappings begin,
      the mappings below the stacks, and the last stack slot up to the end of user space. */
  lemma BandsInBytes()
    ensures WINDOW_PAGE * PAGE_SIZE == 0x4000_0000_0000 == WINDOW_START * ENTRIES * ENTRIES * ENTRIES * PAGE_SIZE
    ensures HEAP_END == HEAP_END_PAGE * PAGE_SIZE == MAPPING_BASE * PAGE_SIZE == 0x6000_0000_0000
    ensures MAPPING_END * PAGE_SIZE == 0x7000_0000_0000 <= STACK_REGION_PAGE * PAGE_SIZE
    ensures SlotPage(0) * PAGE_SIZE == 0x7fff_f000_0000 && SlotPage(1) * PAGE_SIZE == SlotPage(0) * PAGE_SIZE + 0x10_0000
    ensures SlotPage(STACK_SLOTS) * PAGE_SIZE == WINDOW_END_PAGE * PAGE_SIZE == USER_SPACE_END
         == WINDOW_END * ENTRIES * ENTRIES * ENTRIES * PAGE_SIZE
  {
  }

  // ---------------------------------------------------------------- heap and mappings side by side

  /** A change confined to the heap band cannot disturb the mapping records or the bands. */
  lemma HeapChange(records: Records, before: Pages, after: Pages, base: nat, end: nat, newEnd: nat)
    requires Banded(before, base) && Agree(records, before)
    requires HeapPages(before, base, end) && HeapPages(after, base, newEnd) && newEnd <= HEAP_END_PAGE
    requires SameBeyond(before, after, base, HEAP_END_PAGE)
    ensures Agree(records, after) && Banded(after, base)
  {
    hide Recorded;
    forall page: nat
      ensures Recorded(records, page) <==> page in after && after[page].owner == UserMapping
      ensures page in after ==> InOwnBand(page, after[page].owner, base) && WriteOrExecute(after[page].flags)
    {
      if Within(page, base, HEAP_END_PAGE) {
        HeapPageOwner(before, base, end, page);
        HeapPageOwner(after, base, newEnd, page);
      }
    }
  }

  lemma HeapPageOwner(pages: Pages, base: nat, end: nat, page: nat)
    requires HeapPages(pages, base, end) && Within(page, base, HEAP_END_PAGE)
    ensures page in pages ==> pages[page].owner == FrameOwner.UserHeap && WriteOrExecute(pages[page].flags)
  {
  }

  lemma HeapIsData(pages: Pages, base: nat, end: nat)
    requires HeapPages(pages, base, end)
    ensures forall page: nat :: Within(page, base, end) ==>
              && page in pages && pages[page].owner == FrameOwner.UserHeap
              && Writable in pages[page].flags && UserAccessible in pages[page].flags && NoExecute in pages[page].flags
  {
  }

  /** A change confined to the mapping region cannot disturb the heap or the bands. */
  lemma MappingChange(records: Records, before: Pages, newRecords: Records, after: Pages, base: nat, end: nat)
    requires Banded(before, base) && HeapPages(before, base, end) && end <= HEAP_END_PAGE
    requires Agree(records, before) && Agree(newRecords, after)
    requires SameBeyond(before, after, MAPPING_BASE, MAPPING_END)
    requires MappingsSafe(after)
    ensures HeapPages(after, base, end) && Banded(after, base)
  {
    hide Recorded;
    forall page: nat
      ensures Within(page, base, end) <==> page in after && after[page].owner == FrameOwner.UserHeap
      ensures page in after ==> InOwnBand(page, after[page].owner, base) && WriteOrExecute(after[page].flags)
      ensures page in after && Within(page, base, HEAP_END_PAGE) ==> after[page].owner == FrameOwner.UserHeap
    {
      if Within(page, MAPPING_BASE, MAPPING_END) {
        MappedPageOwner(records, before, page);
        MappedPageOwner(newRecords, after, page);
      }
    }
  }

  lemma MappedPageOwner(records: Records, pages: Pages, page: nat)
    requires Agree(records, pages) && Within(page, MAPPING_BASE, MAPPING_END)
    ensures page in pages ==> pages[page].owner == UserMapping
  {
  }

  lemma StartedInside(placement: Placement, count: nat, next: nat, records: Records, start: nat)
    requires StartedAt(placement, count, next, records, start)
    ensures MAPPING_BASE <= start && start + count <= MAPPING_END
  {
  }

  /** No page of the mapping region is writable and executable. */
  ghost predicate MappingsSafe(pages: Pages) {
    forall page :: page in pages && Within(page, MAPPING_BASE, MAPPING_END) ==> WriteOrExecute(pages[page].flags)
  }

  lemma BandedSafe(pages: Pages, base: nat)
    requires Banded(pages, base)
    ensures MappingsSafe(pages)
  {
  }

  lemma FlagsSafe(writable: bool)
    ensures WriteOrExecute(PageFlags(writable))
  {
  }

  lemma WithoutIsInside(before: Pages, lo: nat, hi: nat)
    requires MAPPING_BASE <= lo && hi <= MAPPING_END
    ensures SameBeyond(before, PagesWithout(before, lo, hi), MAPPING_BASE, MAPPING_END)
    ensures MappingsSafe(before) ==> MappingsSafe(PagesWithout(before, lo, hi))
  {
  }

  lemma AddedIsInside(before: Pages, after: Pages, lo: nat, hi: nat, flags: set<Flag>)
    requires MAPPING_BASE <= lo && hi <= MAPPING_END && Added(PagesWithout(before, lo, hi), after, lo, hi, flags, UserMapping)
    ensures SameBeyond(before, after, MAPPING_BASE, MAPPING_END)
    ensures MappingsSafe(before) && WriteOrExecute(flags) ==> MappingsSafe(after)
  {
  }

  // ---------------------------------------------------------------- one process

  /** The memory calls of a user task. */
  datatype Call =
    | Break(request: BreakRequest)
    | MapPages(placement: Placement, writable: bool, source: Source, fills: seq<PageFill>)
    | UnmapPages(start: nat, pages: nat)

  /** What they return; a mapping request for no pages does nothing. */
  datatype Answer =
    | BreakAt(address: nat)
    | MapAnswer(result: MapResult)
    | Unmapped(pages: Option<nat>)
    | Nothing

  /** What the calls of a process work on, and the frame map and memory they see. */
  datatype Holdings = Holdings(currentBreak: nat, mappedEnd: nat, nextStart: nat, records: Records, pages: Pages,
                               bytes: map<nat, Bytes>, view: Frames)

  /** `brk` moves the break and the extent to an address in the band, or runs out of frames and
      keeps the break; any other request changes nothing. New heap pages are zeros. */
  ghost predicate BreakEffect(base: nat, request: BreakRequest, before: Holdings, after: Holdings, address: nat) {
    && after.records == before.records && after.nextStart == before.nextStart && address == after.currentBreak
    && SameBeyond(before.pages, after.pages, base, HEAP_END_PAGE)
    && Zeroed(after.pages, after.bytes, before.mappedEnd, after.mappedEnd)
    && (forall page: nat :: Within(page, base, after.mappedEnd) ==>
          && page in after.pages && after.pages[page].owner == UserHeap
          && Writable in after.pages[page].flags && UserAccessible in after.pages[page].flags
          && NoExecute in after.pages[page].flags)
    && if !(request.Set? && base * PAGE_SIZE <= request.address < HEAP_END) then
         after.currentBreak == before.currentBreak && after.mappedEnd == before.mappedEnd && after.pages == before.pages
       else if JustReaches(after.mappedEnd, request.address) then after.currentBreak == request.address
       else
         && after.currentBreak == before.currentBreak && NoneFree(after.view)
         && before.mappedEnd <= after.mappedEnd && after.mappedEnd * PAGE_SIZE < request.address
  }

  /** A granted mapping lies where its placement demands, in place of what was there, and holds its
      bytes; a refused one has its cause, and only a replacement that got under way leaves the gap
      it made. */
  ghost predicate MapEffect(placement: Placement, writable: bool, source: Source, fills: seq<PageFill>,
                            before: Holdings, after: Holdings, result: MapResult) {
    && after.currentBreak == before.currentBreak && after.mappedEnd == before.mappedEnd
    && match result
       case Refused(error) =>
         && Refusal(placement, |fills|, before.nextStart, before.records, fills, after.view, error)
         && after.nextStart == before.nextStart
         && (if placement.FixedReplace? && RangeOk(placement.start, |fills|)
                && ReplaceFits(before.records, placement.start, placement.start + |fills|)
             then
               && TracksWithout(before.records, after.records, placement.start, placement.start + |fills|)
               && after.pages == PagesWithout(before.pages, placement.start, placement.start + |fills|)
             else
               after.records == before.records && after.pages == before.pages)
       case Granted(start, replaced) =>
         && StartedAt(placement, |fills|, before.nextStart, before.records, start)
         && after.nextStart == (if placement.Any? then start + |fills| else before.nextStart)
         && replaced == |RecordedIn(before.records, start, start + |fills|)|
         && TracksAs(before.records, after.records, start, start + |fills|, source)
         && Added(PagesWithout(before.pages, start, start + |fills|), after.pages, start, start + |fills|,
                  PageFlags(writable), UserMapping)
         && MappedAs(after.pages, start, start + |fills|, writable)
         && Holding(after.pages, after.bytes, start, start + |fills|, fills)
  }

  /** `munmap` removes exactly a range that one record holds, and nothing else. */
  ghost predicate UnmapEffect(start: nat, pages: nat, before: Holdings, after: Holdings, answer: Option<nat>) {
    && after.currentBreak == before.currentBreak && after.mappedEnd == before.mappedEnd && after.nextStart == before.nextStart
    && if Unmappable(before.records, start, pages) then
         && answer == Some(pages) && TracksWithout(before.records, after.records, start, start + pages)
         && after.pages == PagesWithout(before.pages, start, start + pages)
       else answer == None && after.records == before.records && after.pages == before.pages
  }

  /** What one memory call does. */
  ghost predicate Effect(base: nat, call: Call, before: Holdings, after: Holdings, answer: Answer) {
    match call
    case Break(request) => answer.BreakAt? && BreakEffect(base, request, before, after, answer.address)
    case MapPages(placement, writable, source, fills) =>
      if fills == [] then answer.Nothing? && after == before
      else answer.MapAnswer? && MapEffect(placement, writable, source, fills, before, after, answer.result)
    case UnmapPages(start, pages) => answer.Unmapped? && UnmapEffect(start, pages, before, after, answer.pages)
  }

  class UserProcess {
    const space: UserAddressSpace
    const heap: UserHeap
    const mappings: UserMappings

    ghost predicate Valid()
      reads this, heap, mappings, space, space.memory, space.pool, space.pool.tracked
    {
      && heap.space == space && mappings.space == space
      && heap.Valid() && mappings.Valid()
      && Banded(space.tree.pages, heap.base)
    }

    /** What validity asks of the process beyond its address space being valid. */
    ghost predicate Shape()
      reads this, heap, mappings, space
    {
      && heap.space == space && mappings.space == space
      && WINDOW_PAGE <= heap.base <= heap.mappedEnd <= HEAP_END_PAGE && heap.base < HEAP_END_PAGE
      && HeapPages(space.tree.pages, heap.base, heap.mappedEnd)
      && heap.base * PAGE_SIZE <= heap.currentBreak < HEAP_END && heap.currentBreak <= heap.mappedEnd * PAGE_SIZE
      && RecordsOk(mappings.records) && MAPPING_BASE <= mappings.nextStart <= MAPPING_END
      && Agree(mappings.records, space.tree.pages)
      && Banded(space.tree.pages, heap.base)
    }

    lemma ValidShape()
      ensures Valid() <==> space.Valid() && Shape()
    {
      hide UserAddressSpace.Valid, HeapPages, RecordsOk, Agree, Banded;
    }

    /** A process over a loaded image and stack, with an empty heap and no mappings. */
    constructor (space: UserAddressSpace, heapStart: nat)
      requires space.Valid() && WINDOW_PAGE <= heapStart < HEAP_END_PAGE
      requires OnlyImage(space.tree.pages)
      requires Banded(space.tree.pages, heapStart)
      ensures Valid() && this.space == space && heap.base == heapStart && fresh(heap) && fresh(mappings)
    {
      hide UserAddressSpace.Valid, RecordsOk, Agree, HeapPages;
      var newHeap := new UserHeap(space, heapStart);
      var newMappings := new UserMappings(space);
      this.space := space;
      heap := newHeap;
      mappings := newMappings;
    }

    ghost function Owns(): Holdings
      requires space.pool.InBounds()
      reads this, heap, mappings, space, space.memory, space.pool, space.pool.tracked
    {
      Holdings(heap.currentBreak, heap.mappedEnd, mappings.nextStart, mappings.records, space.tree.pages,
               space.memory.bytes, space.pool.View())
    }

    lemma ValidInBounds()
      requires Valid()
      ensures space.pool.InBounds()
    {
    }

    /** `brk` next to the mappings. */
    method Break(request: BreakRequest) returns (r: Outcome<nat>)
      requires Valid()
      modifies heap, space, space.memory, space.pool`count, space.pool.tracked
      ensures r.Panic? ==> space.pool.Exhausted(r.reason)
      ensures r.Done? ==> Valid() && space.Steady() == old(space.Steady())
      ensures r.Done? ==> BreakEffect(heap.base, request, old(Owns()), Owns(), r.value)
    {
      hide UserAddressSpace.Valid, UserAddressSpace.Steady, Banded, HeapPages, SameBeyond, Agree, RecordsOk, Zeroed;
      ghost var before, end := space.tree.pages, heap.mappedEnd;
      var result :- heap.ProcessBreak(request);
      HeapChange(mappings.records, before, space.tree.pages, heap.base, end, heap.mappedEnd);
      HeapIsData(space.tree.pages, heap.base, heap.mappedEnd);
      return Done(result);
    }

    /** A private mapping next to the heap. */
    method Map(placement: Placement, pages: nat, writable: bool, source: Source, fills: seq<PageFill>)
        returns (r: Outcome<MapResult>)
      requires Valid() && 0 < pages == |fills|
      modifies mappings, space, space.memory, space.pool`count, space.pool.tracked
      ensures r.Panic? ==> space.pool.Exhausted(r.reason)
      ensures r.Done? ==> Valid() && space.Steady() == old(space.Steady())
      ensures r.Done? ==> MapEffect(placement, writable, source, fills, old(Owns()), Owns(), r.value)
    {
      hide UserAddressSpace.Valid, UserAddressSpace.Steady, UserAddressSpace.DataFrames;
      hide Refusal, Holding, StartedAt, PhysicalFrameAllocator.Exhausted;
      hide Banded, HeapPages, SameBeyond, Agree, RecordsOk, Added, RecordedIn;
      hide TracksAs, TracksWithout, RangeFree, ReplaceFits, PagesWithout, PageFlags;
      ghost var before, records := space.tree.pages, mappings.records;
      BandedSafe(before, heap.base);
      var result :- mappings.MapPrivate(placement, pages, writable, source, fills);
      if result.Granted? {
        FlagsSafe(writable);
        StartedInside(placement, pages, old(mappings.nextStart), records, result.start);
        AddedIsInside(before, space.tree.pages, result.start, result.start + pages, PageFlags(writable));
      } else if space.tree.pages == before {
        SameBeyondItself(before, MAPPING_BASE, MAPPING_END);
      } else {
        WithoutIsInside(before, placement.start, placement.start + pages);
      }
      MappingChange(records, before, mappings.records, space.tree.pages, heap.base, heap.mappedEnd);
      return Done(result);
    }

    /** `munmap` next to the heap. */
    method Unmap(start: nat, pages: nat) returns (r: Outcome<Option<nat>>)
      requires Valid()
      modifies mappings, space, space.memory, space.pool`count, space.pool.tracked
      ensures r.Panic? ==> r.reason == TrackingCapacityExhausted && space.pool.Exhausted(r.reason)
      ensures r.Done? ==> Valid() && space.Steady() == old(space.Steady())
      ensures r.Done? ==> UnmapEffect(start, pages, old(Owns()), Owns(), r.value)
    {
      hide UserAddressSpace.Valid, UserAddressSpace.Steady;
      hide Banded, HeapPages, SameBeyond, Agree, RecordsOk, TracksWithout;
      ghost var before, records := space.tree.pages, mappings.records;
      BandedSafe(before, heap.base);
      var result :- mappings.UnmapRange(start, pages);
      if result.Some? {
        WithoutIsInside(before, start, start + pages);
      } else {
        SameBeyondItself(before, MAPPING_BASE, MAPPING_END);
      }
      MappingChange(records, before, mappings.records, space.tree.pages, heap.base, heap.mappedEnd);
      return Done(result);
    }

    /** One memory call; a request for no pages never reaches the mapping table. */
    method Perform(call: Call) returns (r: Outcome<Answer>)
      requires Valid()
      modifies heap, mappings, space, space.memory, space.pool`count, space.pool.tracked
      ensures r.Panic? ==> space.pool.Exhausted(r.reason)
      ensures r.Done? ==> Valid() && space.Steady() == old(space.Steady())
      ensures r.Done? ==> Effect(heap.base, call, old(Owns()), Owns(), r.value)
    {
      hide UserProcess.Valid, UserProcess.Owns, UserAddressSpace.Steady, UserAddressSpace.Valid;
      hide BreakEffect, MapEffect, UnmapEffect;
      ValidInBounds();
      match call {
        case Break(request) =>
          var address :- Break(request);
          return Done(BreakAt(address));
        case MapPages(placement, writable, source, fills) =>
          if fills == [] {
            return Done(Nothing);
          }
          var result :- Map(placement, |fills|, writable, source, fills);
          return Done(MapAnswer(result));
        case UnmapPages(start, pages) =>
          var unmapped :- Unmap(start, pages);
          return Done(Unmapped(unmapped));
      }
    }

    /** Any run of memory calls keeps the process consistent, the program image in place and the
        frames accounted for. */
    method Run(calls: seq<Call>) returns (r: Outcome<()>)
      requires Valid()
      modifies heap, mappings, space, space.memory, space.pool`count, space.pool.tracked
      ensures r.Panic? ==> space.pool.Exhausted(r.reason)
      ensures r.Done? ==> Valid() && space.Steady() == old(space.Steady())
    {
      hide UserAddressSpace.Steady, UserAddressSpace.Valid, Banded, HeapPages, Agree, RecordsOk;
      for index := 0 to |calls|
        invariant Valid() && space.Steady() == old(space.Steady())
      {
        var _ :- Perform(calls[index]);
      }
      return Done(());
    }
  }

  // ---------------------------------------------------------------- building and destroying a process

  /** What the ELF loader left behind: image pages only, below the heap start and the stacks. */
  lemma LoadedPages(image: Bytes, pages: Pages, bytes: map<nat, Bytes>, page: nat)
    requires Metadata(image).Ok? && page in pages
    requires var headers := ImageHeaders(image);
             && !StackPage(headers) && Loaded(pages, bytes, image, headers, |headers|) && OnlyLoaded(pages, headers, |headers|)
    ensures pages[page].owner == UserElf && page < Metadata(image).value.heapStart && page < STACK_REGION_PAGE
  {
    hide OnPage, Metadata, ImageHeaders;
    LoadedBelowHeap(image, pages, page);
    var headers := ImageHeaders(image);
    var i: nat :| i < |headers| && OnPage(headers[i], page);
    HeldByElf(pages, bytes, image, headers[i], page);
  }

  lemma HeldByElf(pages: Pages, bytes: map<nat, Bytes>, image: Bytes, ph: ProgramHeader, page: nat)
    requires PageHolds(pages, bytes, image, ph, page)
    ensures page in pages && pages[page].owner == UserElf
  {
  }

  lemma HeapStartInWindow(image: Bytes)
    requires Metadata(image).Ok? && StartsInWindow(ImageHeaders(image))
    ensures WINDOW_PAGE <= Metadata(image).value.heapStart
  {
    hide Parse, Metadata, Loadable, RoundedEnd, FirstPage, LastPage;
    AcceptedImage(image);
    var headers, heap := ImageHeaders(image), Metadata(image).value.heapStart;
    var i: nat :| i < |headers| && headers[i].IsLoad() && RoundedEnd(headers[i]) == heap;
    StepAccepts(image, 0, EMPTY_SCAN, headers[i]);
  }

  /** After the stack is mapped there are only image pages, each in its band. */
  lemma StackAdded(before: Pages, after: Pages, heapStart: nat, base: nat, count: nat)
    requires forall page :: page in before ==>
               before[page].owner == UserElf && page < heapStart && page < STACK_REGION_PAGE && WriteOrExecute(before[page].flags)
    requires Added(before, after, base, base + count, STACK_FLAGS, UserStack) && STACK_REGION_PAGE <= base
    ensures OnlyImage(after)
    ensures Banded(after, heapStart) && StackPages(after, base, count)
  {
  }

  ghost predicate OnlyImage(pages: Pages) {
    forall page :: page in pages ==> ImageOwner(pages[page].owner)
  }

  /** Mapping the stack leaves the loaded segments as they are. */
  lemma LoadedStays(before: Pages, after: Pages, bytes: map<nat, Bytes>, image: Bytes, base: nat, count: nat)
    requires Added(before, after, base, base + count, STACK_FLAGS, UserStack)
    requires Loaded(before, bytes, image, ImageHeaders(image), |ImageHeaders(image)|)
    ensures Loaded(after, bytes, image, ImageHeaders(image), |ImageHeaders(image)|)
  {
    hide ImageHeaders, OnPage;
    var headers := ImageHeaders(image);
    forall i: nat, page: nat | i < |headers| && OnPage(headers[i], page)
      ensures PageHolds(after, bytes, image, headers[i], page)
    {
      assert PageHolds(before, bytes, image, headers[i], page);
    }
  }

  /** Filling the stack leaves them as well: no frame backs a segment page and a stack page. */
  lemma LoadedUnderStack(space: UserAddressSpace, bytes: map<nat, Bytes>, after: map<nat, Bytes>, image: Bytes,
                         base: nat, first: nat, count: nat)
    requires space.Valid() && Contiguous(space.tree.pages, base, first, count)
    requires StackPages(space.tree.pages, base, count) && SameElsewhere(bytes, after, first, count)
    requires Loaded(space.tree.pages, bytes, image, ImageHeaders(image), |ImageHeaders(image)|)
    ensures Loaded(space.tree.pages, after, image, ImageHeaders(image), |ImageHeaders(image)|)
  {
    hide ImageHeaders, OnPage, UserAddressSpace.Valid;
    var headers, pages := ImageHeaders(image), space.tree.pages;
    forall i: nat, page: nat | i < |headers| && OnPage(headers[i], page)
      ensures PageHolds(pages, after, image, headers[i], page)
    {
      assert PageHolds(pages, bytes, image, headers[i], page);
      var frame := pages[page].frame;
      if Within(frame, first, first + count) {
        assert Within(base + (frame - first), base, base + count);
        space.FramesDiffer(page, base + (frame - first));
        assert false;
      }
    }
  }

  /** Each load segment of the image is mapped with its flags and holds its bytes. */
  ghost predicate LoadedIn(images: PageImages, image: Bytes) {
    forall i: nat, page: nat :: i < |ImageHeaders(image)| && OnPage(ImageHeaders(image)[i], page) ==>
      SegmentPageIn(images, image, ImageHeaders(image)[i], page)
  }

  ghost predicate SegmentPageIn(images: PageImages, image: Bytes, ph: ProgramHeader, page: nat) {
    && page in images && FileInside(image, ph)
    && images[page].mapping.owner == UserElf && images[page].mapping.flags == SegmentFlags(ph.flags)
    && images[page].content == Some(PageContent(image, ph, page))
    && SegmentAccess(images[page].mapping.flags, ph.flags) && SegmentContent(images[page].content.value, image, ph, page)
  }

  lemma LoadedIsIn(pages: Pages, bytes: map<nat, Bytes>, image: Bytes)
    requires Loaded(pages, bytes, image, ImageHeaders(image), |ImageHeaders(image)|)
    ensures LoadedIn(ImageOf(pages, bytes), image)
  {
    hide ImageHeaders, OnPage, PageContent, SegmentAccess, SegmentContent;
    var headers := ImageHeaders(image);
    forall i: nat, page: nat | i < |headers| && OnPage(headers[i], page)
      ensures SegmentPageIn(ImageOf(pages, bytes), image, headers[i], page)
    {
      assert PageHolds(pages, bytes, image, headers[i], page);
    }
  }

  // ---------------------------------------------------------------- programs

  /** What a process is started from: an ELF image, a stack, its vectors, and the kernel entries
      to copy. */
  datatype Program = Program(image: Bytes, slot: nat, stackPages: nat, arguments: seq<Bytes>, environment: seq<Bytes>,
                             active: seq<Entry>)

  ghost predicate Startable(program: Program) {
    && |program.active| == ENTRIES && program.slot < STACK_SLOTS && FitsSlot(program.stackPages)
    && Passable(program.arguments, program.environment)
    && StartsInWindow(ImageHeaders(program.image))
  }

  /** The heap of an accepted image would start beyond its limit. */
  ghost predicate HeapTooHigh(image: Bytes) {
    Metadata(image).Ok? && HEAP_END_PAGE <= Metadata(image).value.heapStart
  }

  /** The kernel stops while it maps and fills an address space for one of these reasons. */
  ghost predicate CandidateStops(program: Program, reason: PanicReason) {
    var headers := ImageHeaders(program.image);
    || (reason == PageAlreadyMapped && SharedPage(headers))
    || (reason == PageInStackRegion && StackPage(headers))
    || (reason == StackOverflow && !BlockFits(program.slot, program.stackPages, program.arguments, program.environment))
  }

  /** And for one more while it starts a process in it. */
  ghost predicate BuildStops(program: Program, reason: PanicReason) {
    CandidateStops(program, reason) || (reason == HeapStartTooHigh && HeapTooHigh(program.image))
  }

  /** The entry point that the header of an accepted image names. */
  ghost function EntryOf(image: Bytes): nat {
    if Metadata(image).Ok? then Metadata(image).value.entry else 0
  }

  /** A user page that can be executed, and not written, lies there. */
  ghost predicate CodeAt(images: PageImages, address: nat) {
    var page := address / PAGE_SIZE;
    && page in images && UserAccessible in images[page].mapping.flags
    && NoExecute !in images[page].mapping.flags && Writable !in images[page].mapping.flags
  }

  /** The entry point of an accepted image lies in code once its segments are in memory. */
  lemma EntryIsCode(image: Bytes, images: PageImages)
    requires Metadata(image).Ok? && LoadedIn(images, image)
    ensures CodeAt(images, EntryOf(image))
  {
    hide Parse, ScanFrom, Metadata, Headers, PageContent, SegmentContent, SegmentFlags;
    AcceptedImage(image);
    var headers, entry := ImageHeaders(image), Metadata(image).value.entry;
    var i: nat :| i < |headers| && CarriesEntry(headers[i], entry);
    var ph, page := headers[i], entry / PAGE_SIZE;
    assert Loadable(image, ph);
    PageOfAddress(ph, entry);
    assert SegmentPageIn(images, image, ph, page);
  }

  lemma PageOfAddress(ph: ProgramHeader, address: nat)
    requires ph.IsLoad() && ph.address <= address < ph.address + ph.memorySize
    ensures OnPage(ph, address / PAGE_SIZE)
  {
  }

  /** A process as it was started: its segments in memory, its vectors readable on its stack. */
  ghost predicate Intact(images: PageImages, program: Program, prepared: PreparedStack) {
    && LoadedIn(images, program.image) && CodeAt(images, EntryOf(program.image))
    && Enters(prepared, SlotBase(program.slot), program.stackPages * PAGE_SIZE, program.arguments, program.environment)
    && ArgumentsShown(images, program.slot, program.stackPages, prepared, StagingOf(program.arguments, program.environment))
  }

  /** The space still holds what `program` put into it, below the kernel entries it was made with. */
  ghost predicate StartedFrom(space: UserAddressSpace, bytes: map<nat, Bytes>, program: Program, prepared: PreparedStack)
    reads space
  {
    Intact(ImageOf(space.tree.pages, bytes), program, prepared) && space.kernel == program.active
  }

  /** Map the stack of a loaded program and put its vectors on it. */
  method AddStack(space: UserAddressSpace, program: Program, ghost heapStart: nat) returns (r: Outcome<PreparedStack>)
    requires space.Valid() && Startable(program) && Metadata(program.image).Ok? && Metadata(program.image).value.heapStart == heapStart
    requires var headers := ImageHeaders(program.image);
             && !StackPage(headers) && OnlyLoaded(space.tree.pages, headers, |headers|) && NoneBoth(space.tree.pages)
             && Loaded(space.tree.pages, space.memory.bytes, program.image, headers, |headers|)
    modifies space, space.memory, space.pool`count, space.pool.tracked
    ensures r.Panic? ==> CandidateStops(program, r.reason) || space.pool.Exhausted(r.reason)
    ensures r.Done? ==> space.Valid() && space.Around() == old(space.Around())
    ensures r.Done? ==> OnlyImage(space.tree.pages) && Banded(space.tree.pages, heapStart)
    ensures r.Done? ==> Intact(ImageOf(space.tree.pages, space.memory.bytes), program, r.value)
  {
    hide UserAddressSpace.Valid, UserAddressSpace.Around, Loaded, OnlyLoaded, LoadedIn;
    hide Metadata, ImageHeaders, StackPage, SharedPage;
    hide Added, Contiguous, Banded, OnlyImage, StackPages, ImageOf, SameElsewhere, Passable, BlockFits, ArgumentsShown, StagingOf;
    hide Enters, CodeAt, EntryOf;
    ghost var pages, image := space.tree.pages, program.image;
    forall page | page in pages
      ensures pages[page].owner == UserElf && page < heapStart && page < STACK_REGION_PAGE && WriteOrExecute(pages[page].flags)
    {
      LoadedPages(image, pages, space.memory.bytes, page);
    }
    var stack :- AllocateUserStack(space, program.slot, program.stackPages);
    StackAdded(pages, space.tree.pages, heapStart, stack.base, program.stackPages);
    LoadedStays(pages, space.tree.pages, space.memory.bytes, image, stack.base, program.stackPages);
    ghost var bytes := space.memory.bytes;
    var prepared :- PrepareStack(space, program.slot, stack, program.arguments, program.environment);
    LoadedUnderStack(space, bytes, space.memory.bytes, image, stack.base, stack.frame, program.stackPages);
    LoadedIsIn(space.tree.pages, space.memory.bytes, image);
    EntryIsCode(image, ImageOf(space.tree.pages, space.memory.bytes));
    return Done(prepared);
  }

  /** An address space with image and stack, which no task runs in yet. */
  datatype Candidate = Candidate(space: UserAddressSpace, entry: nat, heapStart: nat, prepared: PreparedStack)

  /** What a process in the candidate's space would start with. */
  ghost predicate Ready(candidate: Candidate)
    reads candidate.space, candidate.space.memory, candidate.space.pool, candidate.space.pool.tracked
  {
    && candidate.space.Valid() && WINDOW_PAGE <= candidate.heapStart
    && OnlyImage(candidate.space.tree.pages) && Banded(candidate.space.tree.pages, candidate.heapStart)
  }

  /** `build_execve_candidate`. */
  method BuildCandidate(memory: PhysicalMemory, pool: PhysicalFrameAllocator, program: Program) returns (r: Outcome<Candidate>)
    requires pool.Valid() && Startable(program) && Metadata(program.image).Ok?
    modifies memory, pool`count, pool.tracked
    ensures r.Panic? ==> CandidateStops(program, r.reason) || pool.Exhausted(r.reason)
    ensures r.Done? ==> !SharedPage(ImageHeaders(program.image)) && !StackPage(ImageHeaders(program.image))
    ensures r.Done? ==>
              && fresh(r.value.space) && r.value.space.memory == memory && r.value.space.pool == pool && Ready(r.value)
              && r.value.space.Around() == old(Surrounding(pool.View(), memory.tables, memory.bytes))
              && r.value.heapStart == Metadata(program.image).value.heapStart
              && r.value.entry == Metadata(program.image).value.entry
              && StartedFrom(r.value.space, memory.bytes, program, r.value.prepared)
  {
    hide UserAddressSpace.Valid, UserAddressSpace.Around, Loaded, OnlyLoaded, LoadedIn;
    hide Metadata, ImageHeaders, SharedPage, StackPage;
    hide Added, Contiguous, EmptyWindow, Surrounding, Banded, OnlyImage, StackPages, ImageOf;
    hide SameElsewhere, Passable, BlockFits, ArgumentsShown, StagingOf;
    var space :- UserAddressSpace.Create(memory, pool, program.active);
    var loaded :- LoadUserElf(space, program.image);
    var heapStart := loaded.value.heapStart;
    var prepared :- AddStack(space, program, heapStart);
    HeapStartInWindow(program.image);
    return Done(Candidate(space, loaded.value.entry, heapStart, prepared));
  }

  /** Give a candidate its heap and mappings, as a task that takes it does. */
  method TakeCandidate(candidate: Candidate) returns (r: Outcome<UserProcess>)
    requires Ready(candidate)
    ensures r.Panic? <==> HEAP_END_PAGE <= candidate.heapStart
    ensures r.Panic? ==> r.reason == HeapStartTooHigh
    ensures r.Done? ==>
              && fresh(r.value) && fresh(r.value.heap) && fresh(r.value.mappings)
              && r.value.space == candidate.space && r.value.Valid() && r.value.heap.base == candidate.heapStart
  {
    hide UserAddressSpace.Valid, Banded, OnlyImage, HeapPages, Agree, RecordsOk;
    if candidate.heapStart >= HEAP_END_PAGE {
      return Panic(HeapStartTooHigh);
    }
    var process := new UserProcess(candidate.space, candidate.heapStart);
    return Done(process);
  }

  /** A process from a program the validator accepts. */
  method BuildProcess(memory: PhysicalMemory, pool: PhysicalFrameAllocator, program: Program)
      returns (r: Outcome<(UserProcess, PreparedStack)>)
    requires pool.Valid() && Startable(program) && Metadata(program.image).Ok?
    modifies memory, pool`count, pool.tracked
    ensures r.Panic? ==> BuildStops(program, r.reason) || pool.Exhausted(r.reason)
    ensures r.Done? ==> !SharedPage(ImageHeaders(program.image)) && !StackPage(ImageHeaders(program.image))
    ensures r.Done? ==> !HeapTooHigh(program.image)
    ensures r.Done? ==> var p := r.value.0;
              && fresh(p) && fresh(p.heap) && fresh(p.mappings) && fresh(p.space)
              && p.space.memory == memory && p.space.pool == pool
              && p.Valid() && p.space.Around() == old(Surrounding(pool.View(), memory.tables, memory.bytes))
              && p.heap.base == Metadata(program.image).value.heapStart
              && StartedFrom(p.space, memory.bytes, program, r.value.1)
  {
    hide UserAddressSpace.Around, Metadata, ImageHeaders, SharedPage, StackPage, Surrounding, ImageOf, Intact;
    hide UserAddressSpace.Valid, UserProcess.Valid, Ready, CandidateStops, Startable, PhysicalFrameAllocator.Exhausted;
    var candidate :- BuildCandidate(memory, pool, program);
    var process :- TakeCandidate(candidate);
    return Done((process, candidate.prepared));
  }

  /** The life of a process: validated, built, run through any memory calls, destroyed. The frame
      map ends as it began. */
  method LifeCycle(memory: PhysicalMemory, pool: PhysicalFrameAllocator, program: Program, calls: seq<Call>)
      returns (r: Outcome<bool>)
    requires pool.Valid() && Startable(program)
    modifies memory, pool`count, pool.tracked
    ensures r.Panic? ==> BuildStops(program, r.reason) || pool.Exhausted(r.reason)
    ensures r.Done? ==> r.value == Metadata(program.image).Ok?
    ensures r.Done? ==> pool.Valid() && pool.View() == old(pool.View())
    ensures r.Done? ==>
              Surrounding(pool.View(), memory.tables, memory.bytes) == old(Surrounding(pool.View(), memory.tables, memory.bytes))
  {
    hide UserAddressSpace.Valid, UserAddressSpace.Around, Metadata, Startable, BuildStops, SharedPage, StackPage;
    hide HeapPages, Agree, RecordsOk, Banded, OnlyImage, Intact, ImageOf, Kept;
    var validated := LoadMetadata(program.image);
    if validated.Err? {
      return Done(false);
    }
    var built :- BuildProcess(memory, pool, program);
    var _ :- built.0.Run(calls);
    var _ :- DestroyUserAddressSpace(built.0.space);
    return Done(true);
  }
}
