/** The mapping pass of the ELF loader: every load segment gets frames of its own, holding the
    segment's file bytes followed by zeros. */
module ElfLoader {
  import opened Machine
  import opened LittleEndian
  import opened FrameTable
  import opened PageTree
  import opened FrameAllocator
  import opened AddressSpace
  import opened UserMappings
  import opened Elf

  /** The byte of a segment's memory image at a user address: file bytes first, zeros after. */
  function ImageByte(image: Bytes, ph: ProgramHeader, address: nat): Byte
    requires ph.offset + ph.fileSize <= |image|
  {
    if ph.address <= address < ph.address + ph.fileSize then image[ph.offset + (address - ph.address)] else 0
  }

  function PageContent(image: Bytes, ph: ProgramHeader, page: nat): (r: Bytes)
    requires ph.offset + ph.fileSize <= |image|
    ensures |r| == PAGE_SIZE
  {
    seq<Byte>(PAGE_SIZE, k requires 0 <= k < PAGE_SIZE => ImageByte(image, ph, page * PAGE_SIZE + k))
  }

  function SegmentFlags(flags: nat): set<Flag> {
    {UserAccessible} + (if HasBit(flags, PF_WRITE) then {Writable} else {})
    + (if HasBit(flags, PF_EXECUTE) then {} else {NoExecute})
  }

  /** A page of a segment is for the user, writable exactly if bit 1 of the segment's flags is set, and
      executable exactly if bit 0 is. */
  predicate SegmentAccess(flags: set<Flag>, segment: nat) {
    UserAccessible in flags && (Writable in flags <==> segment / 2 % 2 == 1) && (NoExecute in flags <==> segment % 2 == 0)
  }

  /** A page of a segment holds the file bytes that belong to its addresses, and zeros elsewhere. */
  ghost predicate SegmentContent(content: Bytes, image: Bytes, ph: ProgramHeader, page: nat)
    requires FileInside(image, ph)
  {
    && |content| == PAGE_SIZE
    && forall k :: 0 <= k < PAGE_SIZE ==>
         content[k] == if ph.address <= page * PAGE_SIZE + k < ph.address + ph.fileSize
                       then image[ph.offset + (page * PAGE_SIZE + k - ph.address)] else 0
  }

  lemma ContentIsSegment(image: Bytes, ph: ProgramHeader, page: nat)
    requires FileInside(image, ph)
    ensures SegmentContent(PageContent(image, ph, page), image, ph, page) && SegmentAccess(SegmentFlags(ph.flags), ph.flags)
  {
    forall k | 0 <= k < PAGE_SIZE ensures PageContent(image, ph, page)[k] == ImageByte(image, ph, page * PAGE_SIZE + k) {
    }
  }

  // ---------------------------------------------------------------- what has been loaded

  ghost predicate FileInside(image: Bytes, ph: ProgramHeader) {
    ph.offset + ph.fileSize <= |image|
  }

  ghost predicate PageHolds(pages: Pages, bytes: map<nat, Bytes>, image: Bytes, ph: ProgramHeader, page: nat) {
    && FileInside(image, ph) && page in pages
    && pages[page].owner == UserElf && pages[page].flags == SegmentFlags(ph.flags)
    && pages[page].frame in bytes && bytes[pages[page].frame] == PageContent(image, ph, page)
    && SegmentAccess(pages[page].flags, ph.flags) && SegmentContent(bytes[pages[page].frame], image, ph, page)
  }

  /** Pages [lo, hi) of a segment are mapped and hold its image. */
  ghost predicate Filled(pages: Pages, bytes: map<nat, Bytes>, image: Bytes, ph: ProgramHeader, lo: nat, hi: nat) {
    forall page: nat :: Within(page, lo, hi) ==> PageHolds(pages, bytes, image, ph, page)
  }

  /** The first `n` headers are loaded: each load segment holds its image. */
  ghost predicate Loaded(pages: Pages, bytes: map<nat, Bytes>, image: Bytes, headers: seq<ProgramHeader>, n: nat)
    requires n <= |headers|
  {
    forall i: nat, page: nat :: i < n && OnPage(headers[i], page) ==> PageHolds(pages, bytes, image, headers[i], page)
  }

  /** Nothing is mapped but pages of the first `n` headers. */
  ghost predicate OnlyLoaded(pages: Pages, headers: seq<ProgramHeader>, n: nat)
    requires n <= |headers|
  {
    forall page :: page in pages ==> SomeOnPage(headers, n, page)
  }

  ghost predicate SomeOnPage(headers: seq<ProgramHeader>, n: nat, page: nat)
    requires n <= |headers|
  {
    exists i: nat :: i < n && OnPage(headers[i], page)
  }

  /** No page belongs to two of the first `n` headers, and none lies in the stack region. */
  ghost predicate Disjoint(headers: seq<ProgramHeader>, n: nat)
    requires n <= |headers|
  {
    && (forall i: nat, page: nat :: i < n && OnPage(headers[i], page) ==> page < STACK_REGION_PAGE)
    && (forall i: nat, j: nat, page: nat :: i < j < n && OnPage(headers[i], page) ==> !OnPage(headers[j], page))
  }

  ghost predicate SharedPage(headers: seq<ProgramHeader>) {
    exists i: nat, j: nat, page: nat :: i < j < |headers| && OnPage(headers[i], page) && OnPage(headers[j], page)
  }

  ghost predicate StackPage(headers: seq<ProgramHeader>) {
    exists i: nat, page: nat :: i < |headers| && OnPage(headers[i], page) && STACK_REGION_PAGE <= page
  }

  // ---------------------------------------------------------------- one page

  /** `copy_segment_page` into the zeroed frame of a mapped page. */
  method CopySegmentPage(space: UserAddressSpace, image: Bytes, ph: ProgramHeader, page: nat, frame: nat)
    requires FileInside(image, ph) && space.Valid() && page in space.tree.pages && space.tree.pages[page].frame == frame
    requires frame in space.memory.bytes && space.memory.bytes[frame] == ZeroPage()
    modifies space.memory`bytes
    ensures space.memory.bytes == old(space.memory.bytes)[frame := PageContent(image, ph, page)]
    ensures space.Valid() && space.Around() == old(space.Around())
  {
    hide UserAddressSpace.Valid, UserAddressSpace.Around, FramesOf;
    var start, end := ph.address, ph.address + ph.fileSize;
    var pageStart := page * PAGE_SIZE;
    var copyStart, copyEnd := Max(pageStart, start), Min(pageStart + PAGE_SIZE, end);
    if copyStart >= copyEnd {
      ContentIsZero(image, ph, page);
      return;
    }
    var source, length, destination := ph.offset + (copyStart - start), copyEnd - copyStart, copyStart - pageStart;
    assert source + length <= |image| && destination + length <= PAGE_SIZE;
    var zeros := ZeroPage();
    var content := zeros[..destination] + image[source..source + length] + zeros[destination + length..];
    ContentIsCopied(image, ph, page, content, copyStart, copyEnd);
    PageInFrames(space.tree, page);
    space.WriteFrame(frame, content);
  }

  lemma ContentIsZero(image: Bytes, ph: ProgramHeader, page: nat)
    requires FileInside(image, ph)
    requires Max(page * PAGE_SIZE, ph.address) >= Min(page * PAGE_SIZE + PAGE_SIZE, ph.address + ph.fileSize)
    ensures PageContent(image, ph, page) == ZeroPage()
  {
    forall k | 0 <= k < PAGE_SIZE ensures PageContent(image, ph, page)[k] == ZeroPage()[k] {
      assert PageContent(image, ph, page)[k] == ImageByte(image, ph, page * PAGE_SIZE + k);
    }
  }

  lemma ContentIsCopied(image: Bytes, ph: ProgramHeader, page: nat, content: Bytes, from: nat, to: nat)
    requires FileInside(image, ph) && from < to && |content| == PAGE_SIZE
    requires from == Max(page * PAGE_SIZE, ph.address) && to == Min(page * PAGE_SIZE + PAGE_SIZE, ph.address + ph.fileSize)
    requires forall k :: 0 <= k < PAGE_SIZE ==>
               content[k] == if from <= page * PAGE_SIZE + k < to then image[ph.offset + (page * PAGE_SIZE + k - ph.address)] else 0
    ensures content == PageContent(image, ph, page)
  {
    forall k | 0 <= k < PAGE_SIZE ensures content[k] == PageContent(image, ph, page)[k] {
      assert PageContent(image, ph, page)[k] == ImageByte(image, ph, page * PAGE_SIZE + k);
    }
  }

  /** Map one fresh page of a segment and fill it. */
  method LoadPage(space: UserAddressSpace, image: Bytes, ph: ProgramHeader, page: nat)
      returns (r: Outcome<nat>)
    requires space.Valid() && UserPage(page) && FileInside(image, ph)
    modifies space, space.memory, space.pool`count, space.pool.tracked
    ensures r.Panic? ==> r.reason == PageAlreadyMapped || r.reason == PageInStackRegion || space.pool.Exhausted(r.reason)
    ensures r == Panic(PageAlreadyMapped) ==> page in old(space.tree.pages)
    ensures r == Panic(PageInStackRegion) ==> STACK_REGION_PAGE <= page
    ensures r.Done? ==>
              && space.Valid() && space.Around() == old(space.Around())
              && page < STACK_REGION_PAGE && page !in old(space.tree.pages)
              && space.tree.pages == old(space.tree.pages)[page := Mapping(r.value, SegmentFlags(ph.flags), UserElf)]
              && space.memory.bytes == old(space.memory.bytes)[r.value := PageContent(image, ph, page)]
              && FrameUnused(old(space.tree.pages), r.value)
  {
    hide UserAddressSpace.Valid, UserAddressSpace.Around, UserAddressSpace.Steady, PageContent, SegmentFlags;
    hide FrameUnused, WalkTables, ZeroPage, UserPage;
    if page >= STACK_REGION_PAGE {
      return Panic(PageInStackRegion);
    }
    ghost var bytes := space.memory.bytes;
    var taken :- space.MapFreshPage(page, SegmentFlags(ph.flags), UserElf, Some(ZeroPage()));
    if taken.NoFrame? {
      return Panic(OutOfFrames);
    }
    var frame := taken.frame;
    CopySegmentPage(space, image, ph, page, frame);
    UpdateTwice(bytes, frame, ZeroPage(), PageContent(image, ph, page));
    return Done(frame);
  }

  /** A page that is mapped and filled later does not disturb one that holds its image. */
  lemma StillHolds(pages: Pages, bytes: map<nat, Bytes>, image: Bytes, ph: ProgramHeader, page: nat,
                   newPage: nat, mapping: Mapping, content: Bytes)
    requires PageHolds(pages, bytes, image, ph, page)
    requires newPage !in pages && FrameUnused(pages, mapping.frame)
    ensures PageHolds(pages[newPage := mapping], bytes[mapping.frame := content], image, ph, page)
  {
    hide PageContent, SegmentFlags, SegmentAccess, SegmentContent;
  }

  lemma OnePageLoaded(pages: Pages, bytes: map<nat, Bytes>, image: Bytes, headers: seq<ProgramHeader>, n: nat,
                      page: nat, frame: nat)
    requires n < |headers| && headers[n].IsLoad() && FileInside(image, headers[n]) && FirstPage(headers[n]) <= page
    requires Loaded(pages, bytes, image, headers, n)
    requires Filled(pages, bytes, image, headers[n], FirstPage(headers[n]), page)
    requires page !in pages && FrameUnused(pages, frame)
    ensures var ph := headers[n];
            var after := pages[page := Mapping(frame, SegmentFlags(ph.flags), UserElf)];
            var filled := bytes[frame := PageContent(image, ph, page)];
            && Loaded(after, filled, image, headers, n)
            && Filled(after, filled, image, ph, FirstPage(ph), page + 1)
  {
    hide PageContent, SegmentFlags, OnPage, FirstPage, PageHolds;
    var ph := headers[n];
    var mapping, content := Mapping(frame, SegmentFlags(ph.flags), UserElf), PageContent(image, ph, page);
    var after, filled := pages[page := mapping], bytes[frame := content];
    forall i: nat, p: nat | i < n && OnPage(headers[i], p) ensures PageHolds(after, filled, image, headers[i], p) {
      StillHolds(pages, bytes, image, headers[i], p, page, mapping, content);
    }
    forall p: nat | Within(p, FirstPage(ph), page + 1) ensures PageHolds(after, filled, image, ph, p) {
      if p == page {
        NewPageHolds(pages, bytes, image, ph, page, frame);
      } else {
        StillHolds(pages, bytes, image, ph, p, page, mapping, content);
      }
    }
  }

  lemma NewPageHolds(pages: Pages, bytes: map<nat, Bytes>, image: Bytes, ph: ProgramHeader, page: nat, frame: nat)
    requires FileInside(image, ph)
    ensures PageHolds(pages[page := Mapping(frame, SegmentFlags(ph.flags), UserElf)],
                      bytes[frame := PageContent(image, ph, page)], image, ph, page)
  {
    hide PageContent, SegmentFlags, SegmentAccess, SegmentContent;
    ContentIsSegment(image, ph, page);
  }

  // ---------------------------------------------------------------- one segment

  /** What a segment mapped up to, and not including, `page` has established. */
  ghost predicate Progress(before: Pages, pages: Pages, bytes: map<nat, Bytes>, image: Bytes,
                           headers: seq<ProgramHeader>, n: nat, page: nat)
    requires n < |headers|
  {
    && Added(before, pages, FirstPage(headers[n]), page, SegmentFlags(headers[n].flags), UserElf)
    && Unmapped(before, FirstPage(headers[n]), page)
    && Loaded(pages, bytes, image, headers, n)
    && Filled(pages, bytes, image, headers[n], FirstPage(headers[n]), page)
    && (forall p: nat :: Within(p, FirstPage(headers[n]), page) ==> p < STACK_REGION_PAGE)
  }

  lemma ProgressOne(before: Pages, pages: Pages, bytes: map<nat, Bytes>, image: Bytes, headers: seq<ProgramHeader>,
                    n: nat, page: nat, frame: nat)
    requires n < |headers| && headers[n].IsLoad() && FileInside(image, headers[n]) && FirstPage(headers[n]) <= page
    requires Progress(before, pages, bytes, image, headers, n, page)
    requires page !in pages && FrameUnused(pages, frame) && page < STACK_REGION_PAGE
    ensures var ph := headers[n];
            Progress(before, pages[page := Mapping(frame, SegmentFlags(ph.flags), UserElf)],
                     bytes[frame := PageContent(image, ph, page)], image, headers, n, page + 1)
  {
    var ph := headers[n];
    var after := pages[page := Mapping(frame, SegmentFlags(ph.flags), UserElf)];
    OnePageLoaded(pages, bytes, image, headers, n, page, frame);
    {
      hide Loaded, Filled, PageContent, SegmentFlags, FirstPage, OnPage;
      AddedOne(before, pages, after, FirstPage(ph), page, frame, SegmentFlags(ph.flags), UserElf);
      assert page !in before;
    }
  }

  lemma ProgressBegins(before: Pages, bytes: map<nat, Bytes>, image: Bytes, headers: seq<ProgramHeader>, n: nat)
    requires n < |headers| && Loaded(before, bytes, image, headers, n)
    ensures Progress(before, before, bytes, image, headers, n, FirstPage(headers[n]))
  {
    hide PageHolds, SegmentFlags, OnPage, FirstPage;
  }

  lemma NextPageWasMapped(before: Pages, pages: Pages, bytes: map<nat, Bytes>, image: Bytes,
                          headers: seq<ProgramHeader>, n: nat, page: nat)
    requires n < |headers| && Progress(before, pages, bytes, image, headers, n, page)
    ensures page in pages ==> page in before
  {
    hide Loaded, Filled, SegmentFlags, FirstPage;
  }

  /** `map_load_segment`: map and fill every page from the first to the last. */
  method MapLoadSegment(space: UserAddressSpace, image: Bytes, ghost headers: seq<ProgramHeader>,
                        ghost n: nat, ph: ProgramHeader) returns (r: Outcome<Result<()>>)
    requires space.Valid() && n < |headers| && headers[n] == ph && ph.IsLoad()
    requires SegmentRange(ph).Ok? && WINDOW_PAGE <= FirstPage(ph)
    requires Loaded(space.tree.pages, space.memory.bytes, image, headers, n)
    modifies space, space.memory, space.pool`count, space.pool.tracked
    ensures r.Panic? ==> r.reason == PageAlreadyMapped || r.reason == PageInStackRegion || space.pool.Exhausted(r.reason)
    ensures r == Panic(PageAlreadyMapped) ==> exists page :: page in old(space.tree.pages) && OnPage(ph, page)
    ensures r == Panic(PageInStackRegion) ==> exists page :: OnPage(ph, page) && STACK_REGION_PAGE <= page
    ensures r.Done? ==> space.Valid() && space.Around() == old(space.Around())
    ensures r.Done? ==> (r.value.Err? <==> !FileInside(image, ph) || ph.offset + ph.fileSize > U64_MAX)
    ensures r.Done? && r.value.Ok? ==>
              Progress(old(space.tree.pages), space.tree.pages, space.memory.bytes, image, headers, n, LastPage(ph) + 1)
  {
    hide UserAddressSpace.Valid, UserAddressSpace.Around, PageContent, SegmentFlags, Progress, Loaded, FrameUnused;
    if ph.offset + ph.fileSize > U64_MAX || ph.offset + ph.fileSize > |image| {
      return Done(Err(SegmentFileOutOfBounds));
    }
    ghost var before := space.tree.pages;
    ProgressBegins(before, space.memory.bytes, image, headers, n);
    var page := FirstPage(ph);
    while page <= LastPage(ph)
      invariant FirstPage(ph) <= page <= LastPage(ph) + 1
      invariant space.Valid() && space.Around() == old(space.Around())
      invariant Progress(before, space.tree.pages, space.memory.bytes, image, headers, n, page)
    {
      UserPageBounds(page);
      assert OnPage(ph, page);
      ghost var pages, bytes := space.tree.pages, space.memory.bytes;
      NextPageWasMapped(before, pages, bytes, image, headers, n, page);
      var frame :- LoadPage(space, image, ph, page);
      ProgressOne(before, pages, bytes, image, headers, n, page, frame);
      page := page + 1;
    }
    return Done(Ok(()));
  }

  /** A finished segment extends what is known of the first `n` headers to `n + 1`. */
  lemma SegmentDone(before: Pages, was: map<nat, Bytes>, pages: Pages, bytes: map<nat, Bytes>, image: Bytes,
                    headers: seq<ProgramHeader>, n: nat)
    requires n < |headers| && headers[n].IsLoad() && FirstPage(headers[n]) <= LastPage(headers[n])
    requires Progress(before, pages, bytes, image, headers, n, LastPage(headers[n]) + 1)
    requires Loaded(before, was, image, headers, n) && OnlyLoaded(before, headers, n) && Disjoint(headers, n)
    ensures Loaded(pages, bytes, image, headers, n + 1) && OnlyLoaded(pages, headers, n + 1)
    ensures Disjoint(headers, n + 1)
  {
    hide PageContent, SegmentFlags, FirstPage, LastPage, PageHolds;
    var ph := headers[n];
    forall page: nat | OnPage(ph, page)
      ensures PageHolds(pages, bytes, image, ph, page) && page < STACK_REGION_PAGE && page !in before
    {
      assert Within(page, FirstPage(ph), LastPage(ph) + 1);
    }
    forall page | page in pages ensures SomeOnPage(headers, n + 1, page) {
      if page in before {
        var i: nat :| i < n && OnPage(headers[i], page);
      } else {
        assert OnPage(headers[n], page);
      }
    }
    forall i: nat, page: nat | i < n && OnPage(headers[i], page) ensures !OnPage(ph, page) {
      HeldIsMapped(before, was, image, headers[i], page);
    }
  }

  lemma HeldIsMapped(pages: Pages, bytes: map<nat, Bytes>, image: Bytes, ph: ProgramHeader, page: nat)
    requires PageHolds(pages, bytes, image, ph, page)
    ensures page in pages
  {
  }

  /** A header that is not a load segment occupies no page. */
  lemma SkippedDone(pages: Pages, bytes: map<nat, Bytes>, image: Bytes, headers: seq<ProgramHeader>, n: nat)
    requires n < |headers| && !headers[n].IsLoad()
    requires Loaded(pages, bytes, image, headers, n) && OnlyLoaded(pages, headers, n) && Disjoint(headers, n)
    ensures Loaded(pages, bytes, image, headers, n + 1) && OnlyLoaded(pages, headers, n + 1)
    ensures Disjoint(headers, n + 1)
  {
    hide PageHolds;
    forall page | page in pages ensures SomeOnPage(headers, n + 1, page) {
      var i: nat :| i < n && OnPage(headers[i], page);
    }
  }

  // ---------------------------------------------------------------- the whole image

  /** Every load segment starts inside the process window. */
  ghost predicate StartsInWindow(headers: seq<ProgramHeader>) {
    forall i: nat :: i < |headers| && headers[i].IsLoad() ==> WINDOW_PAGE <= FirstPage(headers[i])
  }

  ghost function ImageHeaders(image: Bytes): seq<ProgramHeader> {
    if Parse(image).Ok? then ParsedTableInside(image); Headers(image, Parse(image).value) else []
  }

  /** One header of the mapping pass. */
  method LoadHeader(space: UserAddressSpace, image: Bytes, entry: nat, scan: Scan,
                    ghost headers: seq<ProgramHeader>, ghost n: nat, ph: ProgramHeader) returns (r: Outcome<Result<Scan>>)
    requires space.Valid() && n < |headers| && headers[n] == ph && StartsInWindow(headers)
    requires Loaded(space.tree.pages, space.memory.bytes, image, headers, n)
    requires OnlyLoaded(space.tree.pages, headers, n) && Disjoint(headers, n)
    modifies space, space.memory, space.pool`count, space.pool.tracked
    ensures r.Panic? ==> r.reason == PageAlreadyMapped || r.reason == PageInStackRegion || space.pool.Exhausted(r.reason)
    ensures r == Panic(PageAlreadyMapped) ==> SharedPage(headers)
    ensures r == Panic(PageInStackRegion) ==> StackPage(headers)
    ensures r.Done? ==> space.Valid() && space.Around() == old(space.Around()) && r.value == ScanStep(image, entry, scan, ph)
    ensures r.Done? && r.value.Ok? ==>
              && Loaded(space.tree.pages, space.memory.bytes, image, headers, n + 1)
              && OnlyLoaded(space.tree.pages, headers, n + 1) && Disjoint(headers, n + 1)
  {
    hide UserAddressSpace.Valid, UserAddressSpace.Around, PageHolds, Progress, OnPage, FirstPage, LastPage, ScanSegment;
    var step := ScanStep(image, entry, scan, ph);
    if !ph.IsLoad() {
      SkippedDone(space.tree.pages, space.memory.bytes, image, headers, n);
      return Done(step);
    }
    if step.Err? {
      return Done(step);
    }
    StepAccepts(image, entry, scan, ph);
    ghost var before, was := space.tree.pages, space.memory.bytes;
    var mapped := MapLoadSegment(space, image, headers, n, ph);
    if mapped.Panic? {
      return Panic(mapped.reason);
    }
    assert mapped.value.Ok?;
    SegmentDone(before, was, space.tree.pages, space.memory.bytes, image, headers, n);
    return Done(step);
  }

  /** `load_user_elf` into an empty address space. */
  method LoadUserElf(space: UserAddressSpace, image: Bytes) returns (r: Outcome<Result<LoadedElf>>)
    requires space.Valid() && space.tree.pages == map[] && StartsInWindow(ImageHeaders(image))
    modifies space, space.memory, space.pool`count, space.pool.tracked
    ensures r.Panic? ==> r.reason == PageAlreadyMapped || r.reason == PageInStackRegion || space.pool.Exhausted(r.reason)
    ensures r == Panic(PageAlreadyMapped) ==> SharedPage(ImageHeaders(image))
    ensures r == Panic(PageInStackRegion) ==> StackPage(ImageHeaders(image))
    ensures r.Done? ==> space.Valid() && space.Around() == old(space.Around()) && r.value == Metadata(image)
    ensures r.Done? && r.value.Ok? ==> NoneBoth(space.tree.pages)
    ensures r.Done? && r.value.Ok? ==>
              var headers := ImageHeaders(image);
              && !SharedPage(headers) && !StackPage(headers)
              && Loaded(space.tree.pages, space.memory.bytes, image, headers, |headers|)
              && OnlyLoaded(space.tree.pages, headers, |headers|)
  {
    hide UserAddressSpace.Valid, UserAddressSpace.Around, PageHolds, OnPage, ScanStep, Field;
    var parsed := Parse(image);
    if parsed.Err? {
      return Done(Err(parsed.error));
    }
    var header := parsed.value;
    ParsedTableInside(image);
    if !UserAddress(header.entry) {
      return Done(Err(EntryOutOfRange));
    }
    ghost var headers := Headers(image, header);
    var scan := EMPTY_SCAN;
    for index := 0 to header.count
      invariant space.Valid() && space.Around() == old(space.Around())
      invariant ScanFrom(image, header.entry, headers, 0, EMPTY_SCAN) == ScanFrom(image, header.entry, headers, index, scan)
      invariant Loaded(space.tree.pages, space.memory.bytes, image, headers, index)
      invariant OnlyLoaded(space.tree.pages, headers, index) && Disjoint(headers, index)
    {
      var step :- LoadHeader(space, image, header.entry, scan, headers, index, HeaderAt(image, header, index));
      if step.Err? {
        return Done(Err(step.error));
      }
      scan := step.value;
    }
    if Conclude(header.entry, scan).Ok? {
      LoadedNeverBoth(image, space.tree.pages, space.memory.bytes);
    }
    return Done(Conclude(header.entry, scan));
  }

  /** No page is writable and executable at once. */
  ghost predicate NoneBoth(pages: Pages) {
    forall page :: page in pages ==> !(Writable in pages[page].flags && NoExecute !in pages[page].flags)
  }

  lemma LoadedNeverBoth(image: Bytes, pages: Pages, bytes: map<nat, Bytes>)
    requires Metadata(image).Ok? && OnlyLoaded(pages, ImageHeaders(image), |ImageHeaders(image)|)
    requires Loaded(pages, bytes, image, ImageHeaders(image), |ImageHeaders(image)|)
    ensures NoneBoth(pages)
  {
    hide OnPage, Parse, ScanFrom, Metadata, Headers, PageContent, SegmentContent, SegmentFlags;
    AcceptedImage(image);
    var headers := ImageHeaders(image);
    forall page | page in pages ensures !(Writable in pages[page].flags && NoExecute !in pages[page].flags) {
      var i: nat :| i < |headers| && OnPage(headers[i], page);
      OnPageMeans(headers[i], page);
      assert PageHolds(pages, bytes, image, headers[i], page) && Loadable(image, headers[i]);
    }
  }

  /** Everything an accepted image maps lies below its heap start. */
  lemma LoadedBelowHeap(image: Bytes, pages: Pages, page: nat)
    requires Metadata(image).Ok? && page in pages
    requires OnlyLoaded(pages, ImageHeaders(image), |ImageHeaders(image)|)
    ensures page < Metadata(image).value.heapStart
  {
    hide OnPage, Parse, LastPage, FirstPage, RoundedEnd, Loadable, ScanFrom, Metadata;
    AcceptedImage(image);
    var headers := ImageHeaders(image);
    var i: nat :| i < |headers| && OnPage(headers[i], page);
    OnPageMeans(headers[i], page);
    assert Loadable(image, headers[i]);
    StepAccepts(image, 0, EMPTY_SCAN, headers[i]);
  }

  lemma OnPageMeans(ph: ProgramHeader, page: nat)
    requires OnPage(ph, page)
    ensures ph.IsLoad() && FirstPage(ph) <= page <= LastPage(ph)
  {
  }
}
