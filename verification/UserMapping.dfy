/** Private user mappings: a record table kept in step with the page table and the frames. */
module UserMappings {
  import opened Machine
  import opened RangeMaps
  import opened FrameTable
  import opened FrameMap
  import opened PageTree
  import opened AddressSpace
  import opened MappingRecords
  import opened CanonicalRanges
  import opened FrameAllocator
  import opened LittleEndian

  datatype Placement = Any | FixedNoReplace(start: nat) | FixedReplace(start: nat)

  datatype MappingError = InvalidRequest | AddressInUse | OutOfMemory | InitializationFailed

  datatype MapResult = Granted(start: nat, replaced: nat) | Refused(error: MappingError)

  type Pages = map<nat, Mapping>

  // ---------------------------------------------------------------- lengths

  /** `page_count_for_length`: pages for a byte length, rounded up. */
  function PageCountForLength(length: nat): Option<nat> {
    if length == 0 || length + (PAGE_SIZE - 1) > U64_MAX then None
    else Some((length + (PAGE_SIZE - 1)) / PAGE_SIZE)
  }

  /** `page_initialize_length`: the requested bytes of one page, absent on overflow. */
  function PageInitializeLength(length: nat, index: nat): Option<nat> {
    if index * PAGE_SIZE > U64_MAX then None
    else Some(Min(Max(length - index * PAGE_SIZE, 0), PAGE_SIZE))
  }

  /** Every page of a mapping has some bytes to initialize, so the overflow return inside the
      mapping loop, which would leak the frame just taken, is unreachable. */
  lemma InitializeLengthPresent(length: nat, index: nat)
    requires PageCountForLength(length).Some? && index < PageCountForLength(length).value
    ensures PageInitializeLength(length, index).Some? && 0 < PageInitializeLength(length, index).value <= PAGE_SIZE
  {
  }

  /** The pages of a request hold its bytes with less than a page to spare; only requests of no bytes
      and requests beyond 64 bits have no page count. */
  lemma PageCountExact(length: nat)
    ensures PageCountForLength(length).None? <==> length == 0 || length > U64_MAX - (PAGE_SIZE - 1)
    ensures PageCountForLength(length).Some? ==>
              var pages := PageCountForLength(length).value; (pages - 1) * PAGE_SIZE < length <= pages * PAGE_SIZE
  {
  }

  /** Each page takes a full page of them, the last one what is left. */
  lemma InitializeLengthExact(length: nat, index: nat)
    requires PageCountForLength(length).Some? && index < PageCountForLength(length).value
    ensures PageInitializeLength(length, index)
         == Some(if index + 1 < PageCountForLength(length).value then PAGE_SIZE else length - index * PAGE_SIZE)
  {
  }

  // ---------------------------------------------------------------- pages and records

  predicate Within(page: nat, lo: nat, hi: nat) {
    lo <= page < hi
  }

  ghost function PagesWithout(pages: Pages, lo: nat, hi: nat): Pages {
    map page | page in pages && !Within(page, lo, hi) :: pages[page]
  }

  /** `after` is `before` plus freshly mapped pages [lo, hi). */
  ghost predicate Added(before: Pages, after: Pages, lo: nat, hi: nat, flags: set<Flag>, owner: FrameOwner) {
    && (forall page: nat :: page in after <==> page in before || Within(page, lo, hi))
    && (forall page :: page in before ==> page in after && after[page] == before[page])
    && (forall page: nat :: Within(page, lo, hi) ==> page in after && after[page].owner == owner && after[page].flags == flags)
  }

  ghost predicate Unmapped(pages: Pages, lo: nat, hi: nat) {
    forall page: nat :: Within(page, lo, hi) ==> page !in pages
  }

  ghost predicate AllOwned(pages: Pages, lo: nat, hi: nat, owner: FrameOwner) {
    forall page: nat :: Within(page, lo, hi) ==> page in pages && pages[page].owner == owner
  }

  lemma AddedNothing(pages: Pages, lo: nat, flags: set<Flag>, owner: FrameOwner)
    ensures Added(pages, pages, lo, lo, flags, owner)
  {
  }

  lemma AddedOne(before: Pages, now: Pages, after: Pages, lo: nat, page: nat, frame: nat, flags: set<Flag>, owner: FrameOwner)
    requires Added(before, now, lo, page, flags, owner) && lo <= page && page !in now
    requires after == now[page := Mapping(frame, flags, owner)]
    ensures Added(before, after, lo, page + 1, flags, owner)
  {
  }

  lemma AddedRemoved(before: Pages, after: Pages, lo: nat, hi: nat, flags: set<Flag>, owner: FrameOwner)
    requires Added(before, after, lo, hi, flags, owner) && Unmapped(before, lo, hi)
    ensures PagesWithout(after, lo, hi) == before
    ensures AllOwned(after, lo, hi, owner)
  {
  }

  /** The records track exactly the pages mapped to frames of private mappings, and every page
      of the region that is mapped is one of them. */
  ghost predicate Agree(records: Records, pages: Pages) {
    && (forall page: nat :: Recorded(records, page) <==> page in pages && pages[page].owner == UserMapping)
    && (forall page :: page in pages && Within(page, MAPPING_BASE, MAPPING_END) ==> pages[page].owner == UserMapping)
  }

  lemma UserPageBounds(page: nat)
    ensures UserPage(page) <==> WINDOW_PAGE <= page < WINDOW_END_PAGE
  {
    assert Up(page, 3) == page / ENTRIES / ENTRIES / ENTRIES by {
      assert Up(page, 1) == page / ENTRIES;
      assert Up(page, 2) == Up(page, 1) / ENTRIES;
    }
  }

  // ---------------------------------------------------------------- pages in bulk

  method UnmapPages(space: UserAddressSpace, start: nat, count: nat, owner: FrameOwner) returns (r: Outcome<()>)
    requires space.Valid() && owner != Nobody && !ImageOwner(owner)
    requires AllOwned(space.tree.pages, start, start + count, owner)
    requires forall page: nat :: Within(page, start, start + count) ==> UserPage(page)
    modifies space, space.memory`tables, space.pool`count, space.pool.tracked
    ensures r.Panic? ==> r.reason == TrackingCapacityExhausted && space.pool.Exhausted(r.reason)
    ensures r.Done? ==> space.Valid() && space.Steady() == old(space.Steady())
    ensures r.Done? ==> space.tree.tables == old(space.tree.tables)
    ensures r.Done? ==> space.tree.pages == PagesWithout(old(space.tree.pages), start, start + count)
  {
    hide UserAddressSpace.Valid, UserAddressSpace.Steady, UserAddressSpace.Around, PhysicalFrameAllocator.Exhausted, UserPage;
    ghost var before := space.tree.pages;
    assert PagesWithout(before, start, start) == before;
    for index := 0 to count
      invariant space.Valid() && space.Steady() == old(space.Steady())
      invariant space.tree.tables == old(space.tree.tables)
      invariant space.tree.pages == PagesWithout(before, start, start + index)
    {
      assert Within(start + index, start, start + count);
      var unmapped :- space.UnmapUserPageFor(start + index, owner);
      assert unmapped;
    }
    return Done(());
  }

  lemma NextIsUnmapped(before: Pages, now: Pages, lo: nat, next: nat, hi: nat, flags: set<Flag>, owner: FrameOwner)
    requires Unmapped(before, lo, hi) && Added(before, now, lo, next, flags, owner) && lo <= next < hi
    ensures next !in now
  {
    assert Within(next, lo, hi) && !Within(next, lo, next);
  }

  lemma UnmappedSoFar(pages: Pages, lo: nat, next: nat, hi: nat)
    requires Unmapped(pages, lo, hi) && next <= hi
    ensures Unmapped(pages, lo, next)
  {
    forall page: nat | Within(page, lo, next) ensures page !in pages {
      assert Within(page, lo, hi);
    }
  }

  /** What the initializer makes of a zeroed page: some bytes at its front, or a refusal. */
  datatype PageFill = Filled(bytes: Bytes) | Failed(error: MappingError)

  /** The bytes followed by zeros, one page in all. */
  function Padded(bytes: Bytes): Bytes {
    seq<Byte>(PAGE_SIZE, k requires 0 <= k < PAGE_SIZE => if k < |bytes| then bytes[k] else 0)
  }

  function FillContent(fill: PageFill): Option<Bytes> {
    if fill.Filled? then Some(Padded(fill.bytes)) else None
  }

  /** A page that begins with these bytes and holds zeros after them. */
  ghost predicate BeginsWith(content: Bytes, bytes: Bytes) {
    |content| == PAGE_SIZE && forall k :: 0 <= k < PAGE_SIZE ==> content[k] == if k < |bytes| then bytes[k] else 0
  }

  /** Page start + i is backed by a frame with what the initializer gave for i, then zeros. */
  ghost predicate Holding(pages: Pages, bytes: map<nat, Bytes>, start: nat, end: nat, fills: seq<PageFill>) {
    forall page: nat :: Within(page, start, end) ==>
      && page in pages && pages[page].frame in bytes
      && page - start < |fills| && fills[page - start].Filled?
      && BeginsWith(bytes[pages[page].frame], fills[page - start].bytes)
  }

  lemma HoldingOne(pages: Pages, bytes: map<nat, Bytes>, start: nat, index: nat, fills: seq<PageFill>, mapping: Mapping)
    requires Holding(pages, bytes, start, start + index, fills) && index < |fills| && fills[index].Filled?
    requires start + index !in pages && FrameUnused(pages, mapping.frame)
    ensures Holding(pages[start + index := mapping], bytes[mapping.frame := Padded(fills[index].bytes)],
                    start, start + index + 1, fills)
  {
    assert BeginsWith(Padded(fills[index].bytes), fills[index].bytes);
    hide Padded, BeginsWith;
  }

  ghost predicate InitializerFails(fills: seq<PageFill>, error: MappingError) {
    exists i :: 0 <= i < |fills| && fills[i] == Failed(error)
  }

  /** Map `count` fresh pages; a failure at any page unmaps the prefix again. It is the
      initializer's, or the machine has fewer free frames than the mapping has pages. */
  method MapPages(space: UserAddressSpace, start: nat, count: nat, flags: set<Flag>, fills: seq<PageFill>)
      returns (r: Outcome<Option<MappingError>>)
    requires space.Valid() && Unmapped(space.tree.pages, start, start + count) && |fills| == count
    requires forall page: nat :: Within(page, start, start + count) ==> UserPage(page)
    modifies space, space.memory, space.pool`count, space.pool.tracked
    ensures r.Panic? ==> space.pool.Exhausted(r.reason)
    ensures r.Done? ==> space.Valid() && space.Steady() == old(space.Steady())
    ensures r.Done? && r.value.Some? ==> space.tree.pages == old(space.tree.pages)
    ensures r.Done? && r.value.Some? ==>
              || InitializerFails(fills, r.value.value)
              || (r.value.value == OutOfMemory && |FreeFrames(space.pool.View())| < count)
    ensures r.Done? && r.value.None? ==>
              && Added(old(space.tree.pages), space.tree.pages, start, start + count, flags, UserMapping)
              && Holding(space.tree.pages, space.memory.bytes, start, start + count, fills)
  {
    hide UserAddressSpace.Valid, UserAddressSpace.Steady, UserAddressSpace.Around, PhysicalFrameAllocator.Exhausted, UserPage;
    hide Added, Unmapped, Holding, Padded, BeginsWith, FrameUnused, WalkTables, FreeFrames;
    ghost var before := space.tree.pages;
    AddedNothing(before, start, flags, UserMapping);
    HoldingNothing(before, space.memory.bytes, start, fills);
    for index := 0 to count
      invariant space.Valid() && space.Steady() == old(space.Steady())
      invariant Added(before, space.tree.pages, start, start + index, flags, UserMapping)
      invariant Holding(space.tree.pages, space.memory.bytes, start, start + index, fills)
    {
      ghost var now, bytes := space.tree.pages, space.memory.bytes;
      assert Within(start + index, start, start + count);
      NextIsUnmapped(before, now, start, start + index, start + count, flags, UserMapping);
      var fill := fills[index];
      var page :- space.MapFreshPage(start + index, flags, UserMapping, FillContent(fill));
      if !page.Mapped? {
        UnmappedSoFar(before, start, start + index, start + count);
        var _ :- RollBack(space, before, start, index, flags, page.NoFrame?);
        return Done(Some(if page.NoFrame? then OutOfMemory else fill.error));
      }
      HoldingOne(now, bytes, start, index, fills, Mapping(page.frame, flags, UserMapping));
      AddedOne(before, now, space.tree.pages, start, start + index, page.frame, flags, UserMapping);
    }
    return Done(None);
  }

  lemma HoldingNothing(pages: Pages, bytes: map<nat, Bytes>, start: nat, fills: seq<PageFill>)
    ensures Holding(pages, bytes, start, start, fills)
  {
  }

  /** Unmap the mapped prefix. When no frame was free, no more are free now than it had pages. */
  method RollBack(space: UserAddressSpace, ghost before: Pages, start: nat, count: nat, ghost flags: set<Flag>, ghost none: bool)
      returns (r: Outcome<()>)
    requires space.Valid() && Added(before, space.tree.pages, start, start + count, flags, UserMapping)
    requires Unmapped(before, start, start + count)
    requires forall page: nat :: Within(page, start, start + count) ==> UserPage(page)
    requires none ==> space.pool.Exhausted(OutOfFrames)
    modifies space, space.memory`tables, space.pool`count, space.pool.tracked
    ensures r.Panic? ==> r.reason == TrackingCapacityExhausted && space.pool.Exhausted(r.reason)
    ensures r.Done? ==> space.Valid() && space.Steady() == old(space.Steady()) && space.tree.pages == before
    ensures r.Done? && none ==> |FreeFrames(space.pool.View())| <= count
  {
    hide Added, Unmapped, TreeOk, TableOk, Canonical, FramesOf, ImageOf, Kept, FreeFrames;
    ghost var tree, view := space.tree, space.pool.View();
    AddedRemoved(before, tree.pages, start, start + count, flags, UserMapping);
    r := UnmapPages(space, start, count, UserMapping);
    if r.Done? && none {
      FreedByUnmapping(tree, view, space.tree, space.pool.View(), start, start + count);
    }
  }

  // ---------------------------------------------------------------- agreement

  /** `after` tracks what `before` does, without [lo, hi). */
  ghost predicate TracksWithout(before: Records, after: Records, lo: nat, hi: nat) {
    forall page: nat, source :: Tracks(after, page, source) <==> Tracks(before, page, source) && !Within(page, lo, hi)
  }

  ghost predicate TracksAlso(before: Records, after: Records, lo: nat, hi: nat, added: Source) {
    forall page: nat, source ::
      Tracks(after, page, source) <==> Tracks(before, page, source) || (Within(page, lo, hi) && source == added)
  }

  lemma AgreeWithout(before: Records, after: Records, pages: Pages, lo: nat, hi: nat)
    requires Agree(before, pages) && TracksWithout(before, after, lo, hi)
    ensures Agree(after, PagesWithout(pages, lo, hi))
  {
    forall page: nat ensures Recorded(after, page) <==> Recorded(before, page) && !Within(page, lo, hi) {
      assert Tracks(after, page, Anonymous) <==> Tracks(before, page, Anonymous) && !Within(page, lo, hi);
      assert Tracks(after, page, FilePrivate) <==> Tracks(before, page, FilePrivate) && !Within(page, lo, hi);
    }
  }

  lemma AgreeAlso(before: Records, after: Records, pages: Pages, pages': Pages, lo: nat, hi: nat, flags: set<Flag>, added: Source)
    requires Agree(before, pages) && TracksAlso(before, after, lo, hi, added)
    requires Added(pages, pages', lo, hi, flags, UserMapping)
    ensures Agree(after, pages')
  {
    forall page: nat ensures Recorded(after, page) <==> Recorded(before, page) || Within(page, lo, hi) {
      assert Tracks(after, page, Anonymous) <==> Tracks(before, page, Anonymous) || (Within(page, lo, hi) && Anonymous == added);
      assert Tracks(after, page, FilePrivate) <==> Tracks(before, page, FilePrivate) || (Within(page, lo, hi) && FilePrivate == added);
    }
  }

  lemma RecordAdded(records: Records, slot: nat, record: Record)
    requires RecordsOk(records) && slot < |records| && records[slot].None?
    requires RangeOk(record.start, record.pages) && RangeFree(records, record.start, record.pages)
    ensures RecordsOk(records[slot := Some(record)])
    ensures TracksAlso(records, records[slot := Some(record)], record.start, record.End(), record.source)
  {
    var after := records[slot := Some(record)];
    forall page: nat, source
      ensures Tracks(after, page, source) <==>
              Tracks(records, page, source) || (Within(page, record.start, record.End()) && source == record.source)
    {
      if Tracks(records, page, source) {
        var i :| 0 <= i < |records| && Covers(records[i], page, source);
        assert Covers(after[i], page, source);
      }
      if Within(page, record.start, record.End()) && source == record.source {
        assert Covers(after[slot], page, source);
      }
      if Tracks(after, page, source) {
        var i :| 0 <= i < |after| && Covers(after[i], page, source);
        if i != slot {
          assert Covers(records[i], page, source);
        }
      }
    }
  }

  lemma FreeMeansUnmapped(records: Records, pages: Pages, start: nat, count: nat)
    requires RecordsOk(records) && Agree(records, pages) && RangeOk(start, count) && RangeFree(records, start, count)
    ensures Unmapped(pages, start, start + count)
  {
    forall page: nat | Within(page, start, start + count) ensures page !in pages {
      FreeUntracked(records, start, count, page);
    }
  }

  lemma RecordPagesOwned(records: Records, pages: Pages, index: nat, lo: nat, hi: nat)
    requires Agree(records, pages) && index < |records| && records[index].Some?
    requires records[index].value.start <= lo && hi <= records[index].value.End()
    ensures AllOwned(pages, lo, hi, UserMapping)
  {
    forall page: nat | Within(page, lo, hi) ensures page in pages && pages[page].owner == UserMapping {
      assert Covers(records[index], page, records[index].value.source);
      assert Recorded(records, page);
    }
  }

  lemma RegionIsUser(start: nat, count: nat)
    requires RangeOk(start, count)
    ensures forall page: nat :: Within(page, start, start + count) ==> UserPage(page)
  {
    forall page: nat | Within(page, start, start + count) ensures UserPage(page) {
      UserPageBounds(page);
    }
  }

  // ---------------------------------------------------------------- counting replaced pages

  ghost function RecordedIn(records: Records, lo: nat, hi: nat): set<nat> {
    set page: nat | lo <= page < hi && Recorded(records, page)
  }

  lemma RecordedWithout(before: Records, after: Records, from: nat, to: nat, page: nat)
    requires TracksWithout(before, after, from, to)
    ensures Recorded(after, page) <==> Recorded(before, page) && !Within(page, from, to)
  {
    hide Tracks;
    assert Tracks(after, page, Anonymous) <==> Tracks(before, page, Anonymous) && !Within(page, from, to);
    assert Tracks(after, page, FilePrivate) <==> Tracks(before, page, FilePrivate) && !Within(page, from, to);
  }

  lemma RecordedByRecord(records: Records, index: nat, page: nat)
    requires index < |records| && records[index].Some?
    requires records[index].value.start <= page < records[index].value.End()
    ensures Recorded(records, page)
  {
    assert Covers(records[index], page, records[index].value.source);
  }

  lemma CountCut(before: Records, after: Records, index: nat, from: nat, to: nat, lo: nat, hi: nat)
    requires TracksWithout(before, after, from, to) && lo <= from <= to <= hi
    requires index < |before| && before[index].Some?
    requires before[index].value.start <= from && to <= before[index].value.End()
    ensures |RecordedIn(before, lo, hi)| == |RecordedIn(after, lo, hi)| + (to - from)
  {
    hide Recorded, TracksWithout;
    var all, rest, cut := RecordedIn(before, lo, hi), RecordedIn(after, lo, hi), Interval(from, to - from);
    IntervalSize(from, to - from);
    forall page: nat
      ensures page in all <==> page in rest || page in cut
      ensures !(page in rest && page in cut)
    {
      RecordedWithout(before, after, from, to, page);
      if Within(page, from, to) {
        RecordedByRecord(before, index, page);
      }
    }
    SizesAdd(all, rest, cut);
  }

  lemma SizesAdd(all: set<nat>, rest: set<nat>, cut: set<nat>)
    requires forall page: nat :: page in all <==> page in rest || page in cut
    requires forall page: nat :: !(page in rest && page in cut)
    ensures |all| == |rest| + |cut|
  {
    assert all == rest + cut;
    assert rest !! cut;
  }

  ghost predicate SameBeyond(before: Pages, after: Pages, lo: nat, hi: nat) {
    forall page: nat :: !Within(page, lo, hi) ==>
      (page in after <==> page in before) && (page in after ==> after[page] == before[page])
  }

  lemma SameBeyondCut(before: Pages, now: Pages, from: nat, to: nat, lo: nat, hi: nat)
    requires SameBeyond(before, now, lo, hi) && lo <= from && to <= hi
    ensures SameBeyond(before, PagesWithout(now, from, to), lo, hi)
  {
  }

  lemma ReplacedPages(records: Records, before: Pages, now: Pages, lo: nat, hi: nat)
    requires SameBeyond(before, now, lo, hi) && Agree(records, now)
    requires MAPPING_BASE <= lo && hi <= MAPPING_END
    requires forall page: nat :: Within(page, lo, hi) ==> !Recorded(records, page)
    ensures now == PagesWithout(before, lo, hi)
  {
  }

  lemma ReplaceStarts(records: Records, pages: Pages, lo: nat, hi: nat)
    requires RecordsOk(records) && ReplaceFits(records, lo, hi)
    ensures Replacing(records, records, lo, hi, 0) && SameBeyond(pages, pages, lo, hi)
  {
  }

  lemma ReplaceEnds(before: Records, now: Records, pages: Pages, nowPages: Pages, lo: nat, hi: nat)
    requires Replacing(before, now, lo, hi, MAX_USER_MAPPINGS) && lo < hi && RangeOk(lo, hi - lo)
    requires SameBeyond(pages, nowPages, lo, hi) && Agree(now, nowPages)
    ensures RangeFree(now, lo, hi - lo) && NextEmpty(now).Some? && TracksWithout(before, now, lo, hi)
    ensures nowPages == PagesWithout(pages, lo, hi)
    ensures |RecordedIn(now, lo, hi)| == 0
  {
    ReplaceDone(before, now, lo, hi);
    forall page: nat | Within(page, lo, hi) ensures !Recorded(now, page) {
      FreeUntracked(now, lo, hi - lo, page);
    }
    ReplacedPages(now, pages, nowPages, lo, hi);
    assert RecordedIn(now, lo, hi) == {};
  }

  // ---------------------------------------------------------------- the mapping table

  class UserMappings {
    const space: UserAddressSpace
    var nextStart: nat
    var records: Records

    ghost predicate Valid()
      reads this, space, space.memory, space.pool, space.pool.tracked
    {
      && space.Valid()
      && RecordsOk(records)
      && MAPPING_BASE <= nextStart <= MAPPING_END
      && Agree(records, space.tree.pages)
    }

    constructor (space: UserAddressSpace)
      requires space.Valid()
      requires forall page :: page in space.tree.pages ==>
                 space.tree.pages[page].owner != UserMapping && !Within(page, MAPPING_BASE, MAPPING_END)
      ensures Valid() && this.space == space && forall page: nat :: !Recorded(records, page)
    {
      this.space := space;
      nextStart := MAPPING_BASE;
      records := seq(MAX_USER_MAPPINGS, _ => None);
    }

    /** Unmap the pages [lo, hi) of the record at `index` and shrink, split or drop it. */
    method CutRecord(index: nat, lo: nat, hi: nat, split: nat) returns (r: Outcome<()>)
      requires Valid() && SplitReady(records, index, lo, hi, split)
      modifies this, space, space.memory`tables, space.pool`count, space.pool.tracked
      ensures r.Panic? ==> r.reason == TrackingCapacityExhausted && space.pool.Exhausted(r.reason)
      ensures r.Done? ==> Valid() && space.Steady() == old(space.Steady()) && nextStart == old(nextStart)
      ensures r.Done? ==> records == Trimmed(old(records), index, lo, hi, split)
      ensures r.Done? ==> TracksWithout(old(records), records, lo, hi)
      ensures r.Done? ==> space.tree.pages == PagesWithout(old(space.tree.pages), lo, hi)
    {
      hide UserAddressSpace.Valid, UserAddressSpace.Steady;
      ghost var before, pages := records, space.tree.pages;
      RecordPagesOwned(records, pages, index, lo, hi);
      RegionIsUser(lo, hi - lo);
      var _ :- UnmapPages(space, lo, hi - lo, UserMapping);
      records := Trimmed(records, index, lo, hi, split);
      TrimmedOk(before, index, lo, hi, split);
      forall page: nat, source
        ensures Tracks(records, page, source) <==> Tracks(before, page, source) && !Within(page, lo, hi)
      {
        TrimmedTracks(before, index, lo, hi, split, page, source);
      }
      AgreeWithout(before, records, pages, lo, hi);
      return Done(());
    }

    /** Index of the record that holds the whole range, the length when there is none. */
    method FindContaining(start: nat, count: nat) returns (index: nat)
      requires |records| == MAX_USER_MAPPINGS
      ensures index <= |records|
      ensures index < |records| ==> Contains(records[index], start, count)
      ensures index == |records| ==> forall i :: 0 <= i < |records| ==> !Contains(records[i], start, count)
    {
      index := 0;
      while index < |records| && !Contains(records[index], start, count)
        invariant index <= |records|
        invariant forall i :: 0 <= i < index ==> !Contains(records[i], start, count)
      {
        index := index + 1;
      }
    }

    /** Unmap a range held by one record; nothing changes when there is no such record, or when it
        must be split and every slot is taken. */
    method UnmapRange(start: nat, count: nat) returns (r: Outcome<Option<nat>>)
      requires Valid()
      modifies this, space, space.memory`tables, space.pool`count, space.pool.tracked
      ensures r.Panic? ==> r.reason == TrackingCapacityExhausted && space.pool.Exhausted(r.reason)
      ensures r.Done? ==> Valid() && space.Steady() == old(space.Steady()) && nextStart == old(nextStart)
      ensures r.Done? ==> r.value == if Unmappable(old(records), start, count) then Some(count) else None
      ensures r.Done? && r.value.None? ==> records == old(records) && space.tree == old(space.tree)
      ensures r.Done? && r.value.Some? ==>
                && TracksWithout(old(records), records, start, start + count)
                && space.tree.pages == PagesWithout(old(space.tree.pages), start, start + count)
    {
      hide UserAddressSpace.Valid, UserAddressSpace.Steady;
      if !RangeOk(start, count) {
        return Done(None);
      }
      var index := FindContaining(start, count);
      if index == |records| {
        return Done(None);
      }
      ContainingUnique(records, start, count, index);
      var split := NextEmpty(records);
      if records[index].value.start < start && start + count < records[index].value.End() && split.None? {
        return Done(None);
      }
      var _ :- CutRecord(index, start, start + count, if split.Some? then split.value else 0);
      return Done(Some(count));
    }

    /** Cut [lo, hi) out of every record that meets it; the number of pages released. */
    method ReplaceOverlappingPages(lo: nat, hi: nat) returns (r: Outcome<nat>)
      requires Valid() && lo < hi && RangeOk(lo, hi - lo) && ReplaceFits(records, lo, hi)
      modifies this, space, space.memory`tables, space.pool`count, space.pool.tracked
      ensures r.Panic? ==> r.reason == TrackingCapacityExhausted && space.pool.Exhausted(r.reason)
      ensures r.Done? ==> Valid() && space.Steady() == old(space.Steady()) && nextStart == old(nextStart)
      ensures r.Done? ==> RangeFree(records, lo, hi - lo) && NextEmpty(records).Some?
      ensures r.Done? ==> TracksWithout(old(records), records, lo, hi)
      ensures r.Done? ==> space.tree.pages == PagesWithout(old(space.tree.pages), lo, hi)
      ensures r.Done? ==> r.value == |RecordedIn(old(records), lo, hi)|
    {
      hide UserAddressSpace.Valid, UserAddressSpace.Steady, Replacing, SameBeyond, RecordedIn, TracksWithout, Agree, RecordsOk;
      ghost var before, pages := records, space.tree.pages;
      var replaced := 0;
      ReplaceStarts(before, pages, lo, hi);
      for index := 0 to MAX_USER_MAPPINGS
        invariant Valid() && space.Steady() == old(space.Steady()) && nextStart == old(nextStart)
        invariant Replacing(before, records, lo, hi, index)
        invariant SameBeyond(pages, space.tree.pages, lo, hi)
        invariant replaced + |RecordedIn(records, lo, hi)| == |RecordedIn(before, lo, hi)|
      {
        var cut :- ReplaceSlot(before, pages, lo, hi, index);
        replaced := replaced + cut;
      }
      ReplaceEnds(before, records, pages, space.tree.pages, lo, hi);
      return Done(replaced);
    }

    method ReplaceSlot(ghost before: Records, ghost pages: Pages, lo: nat, hi: nat, index: nat) returns (r: Outcome<nat>)
      requires Valid() && lo < hi && RangeOk(lo, hi - lo) && index < MAX_USER_MAPPINGS
      requires Replacing(before, records, lo, hi, index) && SameBeyond(pages, space.tree.pages, lo, hi)
      modifies this, space, space.memory`tables, space.pool`count, space.pool.tracked
      ensures r.Panic? ==> r.reason == TrackingCapacityExhausted && space.pool.Exhausted(r.reason)
      ensures r.Done? ==> Valid() && space.Steady() == old(space.Steady()) && nextStart == old(nextStart)
      ensures r.Done? ==> Replacing(before, records, lo, hi, index + 1) && SameBeyond(pages, space.tree.pages, lo, hi)
      ensures r.Done? ==> r.value + |RecordedIn(records, lo, hi)| == |RecordedIn(old(records), lo, hi)|
    {
      hide UserAddressSpace.Valid, UserAddressSpace.Steady;
      ghost var now := records;
      if records[index].None? || !Meets(lo, hi, records[index].value) {
        ReplaceSkips(before, records, lo, hi, index);
        return Done(0);
      }
      var record := records[index].value;
      var from, to := MeetLow(record, lo), MeetHigh(record, hi);
      RemainingMeet(record, lo, hi);
      var split := 0;
      if record.start < from && to < record.End() {
        SplitSlotExists(records, lo, hi, index);
        split := NextEmpty(records).value;
      }
      ReplaceTrims(before, records, lo, hi, index, split);
      SameBeyondCut(pages, space.tree.pages, from, to, lo, hi);
      var _ :- CutRecord(index, from, to, split);
      CountCut(now, records, index, from, to, lo, hi);
      return Done(to - from);
    }

    /** `start_address_for_placement`. */
    method StartForPlacement(placement: Placement, count: nat) returns (r: StartResult)
      requires RecordsOk(records) && MAPPING_BASE <= nextStart && 0 < count
      ensures r.Start? ==> RangeOk(r.value, count)
      ensures r.Start? && !placement.FixedReplace? ==> RangeFree(records, r.value, count)
      ensures r.Start? && placement.Any? ==>
                nextStart <= r.value && forall start :: nextStart <= start < r.value ==> !RangeFree(records, start, count)
      ensures placement.Any? ==> (r.NoStart? <==>
                forall start :: nextStart <= start && RangeOk(start, count) ==> !RangeFree(records, start, count))
      ensures placement.Any? && r.NoStart? ==> r.error == OutOfMemory
      ensures !placement.Any? && r.Start? ==> r.value == placement.start
      ensures !placement.Any? && r.NoStart? ==>
                if RangeOk(placement.start, count)
                then placement.FixedNoReplace? && !RangeFree(records, placement.start, count) && r.error == AddressInUse
                else r.error == InvalidRequest
    {
      match placement
      case Any =>
        var found := NextAvailableStart(records, nextStart, count);
        r := if found.Some? then Start(found.value) else NoStart(OutOfMemory);
      case FixedReplace(start) =>
        r := if RangeOk(start, count) then Start(start) else NoStart(InvalidRequest);
      case FixedNoReplace(start) =>
        if !RangeOk(start, count) {
          return NoStart(InvalidRequest);
        }
        r := if OverlapEnd(records, start, count).Some? then NoStart(AddressInUse) else Start(start);
    }

    /** Map the free range [start, start + count) and record it; any failure changes nothing. */
    method MapFreeRange(start: nat, count: nat, flags: set<Flag>, source: Source, fills: seq<PageFill>)
        returns (r: Outcome<Option<MappingError>>)
      requires Valid() && RangeOk(start, count) && RangeFree(records, start, count) && |fills| == count
      modifies this, space, space.memory, space.pool`count, space.pool.tracked
      ensures r.Panic? ==> space.pool.Exhausted(r.reason)
      ensures r.Done? ==> Valid() && space.Steady() == old(space.Steady()) && nextStart == old(nextStart)
      ensures r.Done? && r.value.Some? ==> records == old(records) && space.tree.pages == old(space.tree.pages)
      ensures r.Done? && r.value.Some? ==>
                || InitializerFails(fills, r.value.value)
                || (r.value.value == OutOfMemory && NextEmpty(records).None?)
                || (r.value.value == OutOfMemory && |FreeFrames(space.pool.View())| < count)
      ensures r.Done? && r.value.None? ==>
                && TracksAlso(old(records), records, start, start + count, source)
                && Added(old(space.tree.pages), space.tree.pages, start, start + count, flags, UserMapping)
                && Holding(space.tree.pages, space.memory.bytes, start, start + count, fills)
    {
      hide UserAddressSpace.Valid, UserAddressSpace.Steady, RangeFree, Agree, Added, TracksAlso;
      hide Unmapped, RecordsOk, Holding, FreeFrames, InitializerFails;
      var slot := NextEmpty(records);
      if slot.None? {
        return Done(Some(OutOfMemory));
      }
      ghost var before, pages := records, space.tree.pages;
      FreeMeansUnmapped(records, pages, start, count);
      RegionIsUser(start, count);
      var error :- MapPages(space, start, count, flags, fills);
      if error.Some? {
        return Done(error);
      }
      records := records[slot.value := Some(Record(start, count, source))];
      RecordAdded(before, slot.value, Record(start, count, source));
      AgreeAlso(before, records, pages, space.tree.pages, start, start + count, flags, source);
      return Done(None);
    }

    /** Clear the range for a replacing request; for any other it is clear already. Nothing
        changes when the records left over would not fit. */
    method MakeRoom(placement: Placement, start: nat, count: nat) returns (r: Outcome<Option<nat>>)
      requires Valid() && RangeOk(start, count)
      requires !placement.FixedReplace? ==> RangeFree(records, start, count)
      modifies this, space, space.memory`tables, space.pool`count, space.pool.tracked
      ensures r.Panic? ==> r.reason == TrackingCapacityExhausted && space.pool.Exhausted(r.reason)
      ensures r.Done? ==> Valid() && space.Steady() == old(space.Steady()) && nextStart == old(nextStart)
      ensures r.Done? ==> (r.value.None? <==> placement.FixedReplace? && !ReplaceFits(old(records), start, start + count))
      ensures r.Done? && (r.value.None? || !placement.FixedReplace?) ==>
                records == old(records) && space.tree.pages == old(space.tree.pages)
      ensures r.Done? && r.value.Some? ==>
                && RangeFree(records, start, count) && (placement.FixedReplace? ==> NextEmpty(records).Some?)
                && TracksWithout(old(records), records, start, start + count)
                && space.tree.pages == PagesWithout(old(space.tree.pages), start, start + count)
                && r.value.value == |RecordedIn(old(records), start, start + count)|
    {
      hide UserAddressSpace.Valid, UserAddressSpace.Steady;
      hide RangeFree, Agree, TracksWithout, RecordedIn, RecordsOk, Unmapped, PagesWithout, ReplaceFits;
      if placement.FixedReplace? {
        if !ReplaceFits(records, start, start + count) {
          return Done(None);
        }
        var replaced :- ReplaceOverlappingPages(start, start + count);
        return Done(Some(replaced));
      }
      FreeTracksWithout(records, start, count);
      FreeMeansUnmapped(records, space.tree.pages, start, count);
      UnmappedWithout(space.tree.pages, start, start + count);
      return Done(Some(0));
    }

    /** Map one private range. A refusal has one of the causes of `Refusal`; a grant gives the
        pages of the range, with the initializer's bytes, in place of what was there. */
    method MapPrivate(placement: Placement, count: nat, writable: bool, source: Source, fills: seq<PageFill>)
        returns (r: Outcome<MapResult>)
      requires Valid() && 0 < count == |fills|
      modifies this, space, space.memory, space.pool`count, space.pool.tracked
      ensures r.Panic? ==> space.pool.Exhausted(r.reason)
      ensures r.Done? ==> Valid() && space.Steady() == old(space.Steady())
      ensures r.Done? && r.value.Refused? ==> nextStart == old(nextStart)
      ensures r.Done? && r.value.Refused? ==>
                Refusal(placement, count, old(nextStart), old(records), fills, space.pool.View(), r.value.error)
      ensures r.Done? && r.value.Refused? ==>
                if placement.FixedReplace? && RangeOk(placement.start, count)
                   && ReplaceFits(old(records), placement.start, placement.start + count)
                then
                  && TracksWithout(old(records), records, placement.start, placement.start + count)
                  && space.tree.pages == PagesWithout(old(space.tree.pages), placement.start, placement.start + count)
                else
                  && records == old(records) && space.tree.pages == old(space.tree.pages)
                  && space.DataFrames() == old(space.DataFrames())
      ensures !placement.Any? && !RangeOk(placement.start, count) ==> r == Done(Refused(InvalidRequest))
      ensures placement.FixedNoReplace? && RangeOk(placement.start, count) && !RangeFree(old(records), placement.start, count) ==>
                r == Done(Refused(AddressInUse))
      ensures r.Done? && r.value.Granted? ==>
                var start, end := r.value.start, r.value.start + count;
                && StartedAt(placement, count, old(nextStart), old(records), start)
                && nextStart == (if placement.Any? then end else old(nextStart))
                && r.value.replaced == |RecordedIn(old(records), start, end)|
                && TracksAs(old(records), records, start, end, source)
                && Added(PagesWithout(old(space.tree.pages), start, end), space.tree.pages, start, end,
                         PageFlags(writable), UserMapping)
                && MappedAs(space.tree.pages, start, end, writable)
                && Holding(space.tree.pages, space.memory.bytes, start, end, fills)
    {
      hide UserAddressSpace.Valid, UserAddressSpace.Steady, UserAddressSpace.DataFrames, Holding, FreeFrames, InitializerFails;
      hide RangeFree, Agree, Added, TracksAlso, TracksWithout, TracksAs;
      hide RecordedIn, RecordsOk, Unmapped, PagesWithout, ReplaceFits, MappedAs;
      var placed := StartForPlacement(placement, count);
      if placed.NoStart? {
        return Done(Refused(placed.error));
      }
      var start := placed.value;
      ghost var before := records;
      space.SteadyData();
      var room :- MakeRoom(placement, start, count);
      if room.None? {
        space.SteadyData();
        return Done(Refused(OutOfMemory));
      }
      ghost var cut := records;
      var error :- MapFreeRange(start, count, PageFlags(writable), source, fills);
      if error.Some? {
        space.SteadyData();
        return Done(Refused(error.value));
      }
      TracksReplaced(before, cut, records, start, start + count, source);
      AddedAs(PagesWithout(old(space.tree.pages), start, start + count), space.tree.pages, start, start + count, writable);
      if placement.Any? {
        nextStart := start + count;
      }
      return Done(Granted(start, room.value));
    }
  }

  /** Where a granted request starts: as asked, or at the least free place from `next` on. */
  ghost predicate StartedAt(placement: Placement, count: nat, next: nat, records: Records, start: nat) {
    && RangeOk(start, count)
    && (!placement.FixedReplace? ==> RangeFree(records, start, count))
    && (!placement.Any? ==> start == placement.start)
    && (placement.Any? ==> next <= start && forall s :: next <= s < start ==> !RangeFree(records, s, count))
  }

  /** Why a request is refused: a bad or taken range, no place, no record to spare, an
      initializer that fails, or fewer free frames than pages. */
  ghost predicate Refusal(placement: Placement, count: nat, next: nat, records: Records, fills: seq<PageFill>,
                          view: Frames, error: MappingError) {
    if !placement.Any? && !RangeOk(placement.start, count) then error == InvalidRequest
    else if placement.FixedNoReplace? && !RangeFree(records, placement.start, count) then error == AddressInUse
    else
      || InitializerFails(fills, error)
      || (error == OutOfMemory && NoRoom(placement, count, next, records))
      || (error == OutOfMemory && |FreeFrames(view)| < count)
  }

  ghost predicate NoRoom(placement: Placement, count: nat, next: nat, records: Records) {
    || (!placement.FixedReplace? && NextEmpty(records).None?)
    || (placement.Any? && NoStartFits(count, next, records))
    || (placement.FixedReplace? && !ReplaceFits(records, placement.start, placement.start + count))
  }

  ghost predicate NoStartFits(count: nat, next: nat, records: Records) {
    forall start :: next <= start && RangeOk(start, count) ==> !RangeFree(records, start, count)
  }

  /** Pages [lo, hi) are user pages that cannot be executed, and can be written if asked for. */
  ghost predicate MappedAs(pages: Pages, lo: nat, hi: nat, writable: bool) {
    forall page: nat :: Within(page, lo, hi) ==>
      && page in pages && UserAccessible in pages[page].flags && NoExecute in pages[page].flags
      && (Writable in pages[page].flags <==> writable)
  }

  lemma AddedAs(before: Pages, after: Pages, lo: nat, hi: nat, writable: bool)
    requires Added(before, after, lo, hi, PageFlags(writable), UserMapping)
    ensures MappedAs(after, lo, hi, writable)
  {
  }

  function PageFlags(writable: bool): set<Flag> {
    {UserAccessible, NoExecute} + if writable then {Writable} else {}
  }

  datatype StartResult = Start(value: nat) | NoStart(error: MappingError)

  /** The records after a mapping: the range has the new source, everything else its old one. */
  ghost predicate TracksAs(before: Records, after: Records, lo: nat, hi: nat, added: Source) {
    forall page: nat, source ::
      Tracks(after, page, source) <==> if Within(page, lo, hi) then source == added else Tracks(before, page, source)
  }

  lemma TracksReplaced(before: Records, cut: Records, after: Records, lo: nat, hi: nat, added: Source)
    requires TracksWithout(before, cut, lo, hi) && TracksAlso(cut, after, lo, hi, added)
    ensures TracksAs(before, after, lo, hi, added)
  {
    forall page: nat, source
      ensures Tracks(after, page, source) <==> if Within(page, lo, hi) then source == added else Tracks(before, page, source)
    {
      assert Tracks(after, page, source) <==> Tracks(cut, page, source) || (Within(page, lo, hi) && source == added);
      assert Tracks(cut, page, source) <==> Tracks(before, page, source) && !Within(page, lo, hi);
    }
  }

  lemma FreeTracksWithout(records: Records, lo: nat, count: nat)
    requires RangeFree(records, lo, count)
    ensures TracksWithout(records, records, lo, lo + count) && RecordedIn(records, lo, lo + count) == {}
  {
    forall page: nat | Within(page, lo, lo + count) ensures !Recorded(records, page) {
      FreeUntracked(records, lo, count, page);
    }
  }

  lemma UnmappedWithout(pages: Pages, lo: nat, hi: nat)
    requires Unmapped(pages, lo, hi)
    ensures PagesWithout(pages, lo, hi) == pages
  {
  }

  predicate Contains(slot: Option<Record>, start: nat, count: nat) {
    slot.Some? && slot.value.start <= start && start + count <= slot.value.End()
  }

  /** The range is inside one record, which keeps at most one side or finds a slot for the other. */
  ghost predicate Unmappable(records: Records, start: nat, count: nat) {
    && RangeOk(start, count)
    && exists i :: 0 <= i < |records| && Contains(records[i], start, count)
         && (records[i].value.start < start && start + count < records[i].value.End() ==>
               exists j :: 0 <= j < |records| && records[j].None?)
  }

  lemma ContainingUnique(records: Records, start: nat, count: nat, index: nat)
    requires RecordsOk(records) && RangeOk(start, count) && index < |records| && Contains(records[index], start, count)
    ensures forall i :: 0 <= i < |records| && Contains(records[i], start, count) ==> i == index
  {
  }
}
