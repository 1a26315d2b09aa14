/** The `brk` heap of a user task: a break address and the pages mapped below it. */
module UserHeaps {
  import opened Machine
  import opened RangeMaps
  import opened FrameTable
  import opened FrameMap
  import opened PageTree
  import opened AddressSpace
  import opened UserMappings
  import opened FrameAllocator
  import opened LittleEndian

  /** Exclusive heap ceiling, in bytes and in pages. */
  const HEAP_END: nat := 0x6000_0000_0000
  const HEAP_END_PAGE: nat := 0x6_0000_0000

  const HEAP_FLAGS: set<Flag> := {Writable, UserAccessible, NoExecute}

  datatype BreakRequest = Current | Set(address: nat)

  /** Pages up to `end` hold every byte below the address, and no page more than needed. */
  predicate JustReaches(end: nat, address: nat) {
    address <= end * PAGE_SIZE < address + PAGE_SIZE
  }

  function PageCeiling(address: nat): nat {
    (address + (PAGE_SIZE - 1)) / PAGE_SIZE
  }

  /** Heap pages are exactly [base, end), all of them data pages, and every mapped page of the heap
      band is one of them. */
  ghost predicate HeapPages(pages: Pages, base: nat, end: nat) {
    && (forall page: nat :: Within(page, base, end) <==> page in pages && pages[page].owner == UserHeap)
    && (forall page :: page in pages && Within(page, base, HEAP_END_PAGE) ==> pages[page].owner == UserHeap)
    && (forall page :: page in pages && pages[page].owner == UserHeap ==> DataPage(pages[page]))
  }

  lemma HeapPageAdded(before: Pages, after: Pages, base: nat, end: nat, frame: nat, flags: set<Flag>)
    requires HeapPages(before, base, end) && base <= end < HEAP_END_PAGE
    requires after == before[end := Mapping(frame, flags, UserHeap)] && DataPage(after[end])
    ensures HeapPages(after, base, end + 1) && SameBeyond(before, after, base, HEAP_END_PAGE)
  {
  }

  lemma HeapPageRemoved(before: Pages, after: Pages, base: nat, end: nat)
    requires HeapPages(before, base, end) && base < end <= HEAP_END_PAGE && after == before - {end - 1}
    ensures HeapPages(after, base, end - 1) && SameBeyond(before, after, base, HEAP_END_PAGE)
  {
  }

  /** The frames of pages [lo, hi) hold zeros. */
  ghost predicate Zeroed(pages: Pages, bytes: map<nat, Bytes>, lo: nat, hi: nat) {
    forall page: nat :: Within(page, lo, hi) ==>
      page in pages && pages[page].frame in bytes && bytes[pages[page].frame] == ZeroPage()
  }

  lemma ZeroedOne(pages: Pages, bytes: map<nat, Bytes>, lo: nat, end: nat, mapping: Mapping)
    requires Zeroed(pages, bytes, lo, end) && end !in pages && FrameUnused(pages, mapping.frame)
    ensures Zeroed(pages[end := mapping], bytes[mapping.frame := ZeroPage()], lo, end + 1)
  {
    hide ZeroPage;
  }

  lemma ZeroedNothing(pages: Pages, bytes: map<nat, Bytes>, lo: nat)
    ensures Zeroed(pages, bytes, lo, lo)
  {
  }

  lemma SameBeyondChains(a: Pages, b: Pages, c: Pages, lo: nat, hi: nat)
    requires SameBeyond(a, b, lo, hi) && SameBeyond(b, c, lo, hi)
    ensures SameBeyond(a, c, lo, hi)
  {
  }

  class UserHeap {
    const space: UserAddressSpace
    const base: nat
    var currentBreak: nat
    var mappedEnd: nat

    /** The mapped extent agrees with the page table. */
    ghost predicate Extent()
      reads this, space, space.memory, space.pool, space.pool.tracked
    {
      && space.Valid()
      && WINDOW_PAGE <= base <= mappedEnd <= HEAP_END_PAGE && base < HEAP_END_PAGE
      && HeapPages(space.tree.pages, base, mappedEnd)
    }

    ghost predicate Valid()
      reads this, space, space.memory, space.pool, space.pool.tracked
    {
      && Extent()
      && base * PAGE_SIZE <= currentBreak < HEAP_END && currentBreak <= mappedEnd * PAGE_SIZE
    }

    constructor (space: UserAddressSpace, initialBreak: nat)
      requires space.Valid() && WINDOW_PAGE <= initialBreak < HEAP_END_PAGE
      requires forall page :: page in space.tree.pages ==>
                 space.tree.pages[page].owner != FrameOwner.UserHeap && !Within(page, initialBreak, HEAP_END_PAGE)
      ensures Valid() && this.space == space && base == initialBreak == mappedEnd && currentBreak == initialBreak * PAGE_SIZE
    {
      this.space := space;
      base := initialBreak;
      currentBreak := initialBreak * PAGE_SIZE;
      mappedEnd := initialBreak;
    }

    /** A request for an address the heap may reach. */
    predicate InBand(request: BreakRequest) {
      request.Set? && base * PAGE_SIZE <= request.address < HEAP_END
    }

    /** Map pages up to `end`; on a frame shortage the pages mapped so far stay. */
    method MapNewPages(end: nat) returns (r: Outcome<bool>)
      requires Extent() && mappedEnd <= end <= HEAP_END_PAGE
      modifies this`mappedEnd, space, space.memory, space.pool`count, space.pool.tracked
      ensures r.Panic? ==> space.pool.Exhausted(r.reason)
      ensures r.Done? ==> Extent() && space.Steady() == old(space.Steady()) && old(mappedEnd) <= mappedEnd <= end
      ensures r.Done? ==> SameBeyond(old(space.tree.pages), space.tree.pages, base, HEAP_END_PAGE)
      ensures r.Done? ==> Zeroed(space.tree.pages, space.memory.bytes, old(mappedEnd), mappedEnd)
      ensures r.Done? ==> (r.value <==> mappedEnd == end)
      ensures r.Done? && !r.value ==> space.pool.Exhausted(OutOfFrames)
    {
      hide UserAddressSpace.Valid, UserAddressSpace.Steady, UserAddressSpace.Around, HeapPages, SameBeyond;
      hide WalkTables, FrameUnused, Zeroed, ZeroPage;
      hide PhysicalFrameAllocator.Exhausted, UserPage;
      ghost var before := space.tree.pages;
      SameBeyondItself(before, base, HEAP_END_PAGE);
      ZeroedNothing(before, space.memory.bytes, mappedEnd);
      while mappedEnd < end
        invariant Extent() && space.Steady() == old(space.Steady()) && old(mappedEnd) <= mappedEnd <= end
        invariant SameBeyond(before, space.tree.pages, base, HEAP_END_PAGE)
        invariant Zeroed(space.tree.pages, space.memory.bytes, old(mappedEnd), mappedEnd)
      {
        ghost var now, bytes := space.tree.pages, space.memory.bytes;
        UserPageBounds(mappedEnd);
        HeapEndUnmapped(now, base, mappedEnd);
        var page :- space.MapFreshPage(mappedEnd, HEAP_FLAGS, FrameOwner.UserHeap, Some(ZeroPage()));
        if !page.Mapped? {
          return Done(false);
        }
        ZeroedOne(now, bytes, old(mappedEnd), mappedEnd, Mapping(page.frame, HEAP_FLAGS, FrameOwner.UserHeap));
        HeapPageAdded(now, space.tree.pages, base, mappedEnd, page.frame, HEAP_FLAGS);
        SameBeyondChains(before, now, space.tree.pages, base, HEAP_END_PAGE);
        mappedEnd := mappedEnd + 1;
      }
      return Done(true);
    }

    method UnmapOldPages(end: nat) returns (r: Outcome<()>)
      requires Extent() && base <= end <= mappedEnd
      modifies this`mappedEnd, space, space.memory`tables, space.pool`count, space.pool.tracked
      ensures r.Panic? ==> r.reason == TrackingCapacityExhausted && space.pool.Exhausted(r.reason)
      ensures r.Done? ==> Extent() && space.Steady() == old(space.Steady()) && mappedEnd == end
      ensures r.Done? ==> SameBeyond(old(space.tree.pages), space.tree.pages, base, HEAP_END_PAGE)
    {
      hide UserAddressSpace.Valid, UserAddressSpace.Steady, UserAddressSpace.Around, HeapPages;
      hide SameBeyond, WalkTables, FrameUnused;
      hide PhysicalFrameAllocator.Exhausted, UserPage;
      ghost var before := space.tree.pages;
      SameBeyondItself(before, base, HEAP_END_PAGE);
      while mappedEnd > end
        invariant Extent() && space.Steady() == old(space.Steady()) && end <= mappedEnd
        invariant SameBeyond(before, space.tree.pages, base, HEAP_END_PAGE)
      {
        ghost var now := space.tree.pages;
        UserPageBounds(mappedEnd - 1);
        HeapLastMapped(now, base, mappedEnd);
        var unmapped :- space.UnmapUserPageFor(mappedEnd - 1, FrameOwner.UserHeap);
        assert unmapped;
        HeapPageRemoved(now, space.tree.pages, base, mappedEnd);
        SameBeyondChains(before, now, space.tree.pages, base, HEAP_END_PAGE);
        mappedEnd := mappedEnd - 1;
      }
      return Done(());
    }

    /** `brk`: an accepted request sets the break and reconciles the mapped extent with it; any
        other outcome leaves the break alone. */
    method ProcessBreak(request: BreakRequest) returns (r: Outcome<nat>)
      requires Valid()
      modifies this, space, space.memory, space.pool`count, space.pool.tracked
      ensures r.Panic? ==> space.pool.Exhausted(r.reason)
      ensures r.Done? ==> Valid() && space.Steady() == old(space.Steady()) && r.value == currentBreak
      ensures r.Done? ==> SameBeyond(old(space.tree.pages), space.tree.pages, base, HEAP_END_PAGE)
      ensures r.Done? ==> Zeroed(space.tree.pages, space.memory.bytes, old(mappedEnd), mappedEnd)
      ensures r.Done? && !InBand(request) ==>
                currentBreak == old(currentBreak) && mappedEnd == old(mappedEnd) && space.tree == old(space.tree)
      ensures r.Done? && InBand(request) ==>
                if JustReaches(mappedEnd, request.address) then currentBreak == request.address
                else
                  && currentBreak == old(currentBreak) && old(mappedEnd) <= mappedEnd
                  && mappedEnd * PAGE_SIZE < request.address && space.pool.Exhausted(OutOfFrames)
    {
      hide UserAddressSpace.Valid, UserAddressSpace.Steady, UserAddressSpace.Around, HeapPages;
      hide SameBeyond, WalkTables, FrameUnused;
      hide PhysicalFrameAllocator.Exhausted, UserPage;
      SameBeyondItself(space.tree.pages, base, HEAP_END_PAGE);
      if !InBand(request) {
        return Done(currentBreak);
      }
      var end := PageCeiling(request.address);
      if end > mappedEnd {
        var complete :- MapNewPages(end);
        if !complete {
          return Done(currentBreak);
        }
      }
      if end < mappedEnd {
        var _ :- UnmapOldPages(end);
      }
      currentBreak := request.address;
      return Done(currentBreak);
    }
  }

  lemma SameBeyondItself(pages: Pages, lo: nat, hi: nat)
    ensures SameBeyond(pages, pages, lo, hi)
  {
  }

  lemma HeapEndUnmapped(pages: Pages, base: nat, end: nat)
    requires HeapPages(pages, base, end) && base <= end < HEAP_END_PAGE
    ensures end !in pages
  {
    assert !Within(end, base, end);
  }

  lemma HeapLastMapped(pages: Pages, base: nat, end: nat)
    requires HeapPages(pages, base, end) && base < end
    ensures end - 1 in pages && pages[end - 1].owner == UserHeap
  {
    assert Within(end - 1, base, end);
  }
}
