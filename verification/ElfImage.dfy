/** Executables laid out byte by byte: what a linker would write for a list of program headers,
    that the parser reads them back, and accepted images that nevertheless stop the kernel. */
module ElfImages {
  import opened Machine
  import opened LittleEndian
  import opened Elf
  import opened ElfLoader
  import opened UserHeaps

  /** A value and the number of bytes it takes. */
  datatype Slot = Slot(value: nat, size: nat) {
    ghost predicate Fits() {
      value < Pow256(size)
    }
  }

  // ---------------------------------------------------------------- packed fields

  function Offset(slots: seq<Slot>, n: nat): nat
    requires n <= |slots|
  {
    if n == 0 then 0 else Offset(slots, n - 1) + slots[n - 1].size
  }

  /** The first `n` slots one after the other. */
  function Packed(slots: seq<Slot>, n: nat): (bytes: Bytes)
    requires n <= |slots|
    ensures |bytes| == Offset(slots, n)
  {
    if n == 0 then [] else Packed(slots, n - 1) + Encode(slots[n - 1].value, slots[n - 1].size)
  }

  lemma {:induction false} PackedPrefix(slots: seq<Slot>, m: nat, n: nat)
    requires m <= n <= |slots|
    ensures Offset(slots, m) <= Offset(slots, n) && Packed(slots, m) == Packed(slots, n)[..Offset(slots, m)]
    decreases n
  {
    if m < n {
      PackedPrefix(slots, m, n - 1);
    }
  }

  lemma PackedSlot(slots: seq<Slot>, i: nat)
    requires i < |slots|
    ensures Offset(slots, i) + slots[i].size == Offset(slots, i + 1) <= Offset(slots, |slots|)
    ensures Packed(slots, |slots|)[Offset(slots, i)..Offset(slots, i + 1)] == Encode(slots[i].value, slots[i].size)
  {
    var all, from, to := Packed(slots, |slots|), Offset(slots, i), Offset(slots, i + 1);
    PackedPrefix(slots, i + 1, |slots|);
    assert all[from..to] == all[..to][from..];
  }

  /** Every packed value is read back, whatever comes before and after. */
  lemma SlotReadBack(before: Bytes, slots: seq<Slot>, after: Bytes, i: nat)
    requires i < |slots| && slots[i].Fits()
    ensures |before| + Offset(slots, i) + slots[i].size <= |before + Packed(slots, |slots|) + after|
    ensures Field(before + Packed(slots, |slots|) + after, |before| + Offset(slots, i), slots[i].size) == slots[i].value
  {
    hide Packed, Offset, Decode, Encode;
    PackedSlot(slots, i);
    SliceInMiddle(before, Packed(slots, |slots|), after, Offset(slots, i), Offset(slots, i + 1));
    DecodeEncode(slots[i].value, slots[i].size);
  }

  lemma SliceInMiddle(before: Bytes, middle: Bytes, after: Bytes, from: nat, to: nat)
    requires from <= to <= |middle|
    ensures (before + middle + after)[|before| + from..|before| + to] == middle[from..to]
  {
  }

  // ---------------------------------------------------------------- the layout

  /** The file header: identification, type, machine, version, entry, table offset, sizes. */
  function FileSlots(entry: nat, count: nat): seq<Slot> {
    [Slot(0x7f, 1), Slot(0x45, 1), Slot(0x4c, 1), Slot(0x46, 1), Slot(2, 1), Slot(1, 1), Slot(1, 1), Slot(0, 9),
     Slot(2, 2), Slot(0x3e, 2), Slot(1, 4), Slot(entry, 8), Slot(HEADER_SIZE, 8), Slot(0, 8), Slot(0, 4),
     Slot(HEADER_SIZE, 2), Slot(PROGRAM_HEADER_SIZE, 2), Slot(count, 2), Slot(0, 6)]
  }

  /** One program header; the physical address is zero. */
  function EntrySlots(ph: ProgramHeader): seq<Slot> {
    [Slot(ph.kind, 4), Slot(ph.flags, 4), Slot(ph.offset, 8), Slot(ph.address, 8), Slot(0, 8),
     Slot(ph.fileSize, 8), Slot(ph.memorySize, 8), Slot(ph.alignment, 8)]
  }

  lemma NextOffset(slots: seq<Slot>, n: nat)
    requires n < |slots|
    ensures Offset(slots, n + 1) == Offset(slots, n) + slots[n].size
  {
  }

  lemma FileOffsets(entry: nat, count: nat)
    ensures var slots := FileSlots(entry, count);
            && (forall i: nat :: i < 7 ==> Offset(slots, i) == i) && Offset(slots, 8) == 16 && Offset(slots, 9) == 18
            && Offset(slots, 10) == 20 && Offset(slots, 11) == 24 && Offset(slots, 12) == 32 && Offset(slots, 15) == 52
            && Offset(slots, 16) == 54 && Offset(slots, 17) == 56 && Offset(slots, 19) == HEADER_SIZE
  {
    var slots := FileSlots(entry, count);
    assert Offset(slots, 0) == 0;
    hide Offset;
    NextOffset(slots, 0); NextOffset(slots, 1); NextOffset(slots, 2); NextOffset(slots, 3); NextOffset(slots, 4);
    NextOffset(slots, 5); NextOffset(slots, 6); NextOffset(slots, 7); NextOffset(slots, 8); NextOffset(slots, 9);
    NextOffset(slots, 10); NextOffset(slots, 11); NextOffset(slots, 12); NextOffset(slots, 13); NextOffset(slots, 14);
    NextOffset(slots, 15); NextOffset(slots, 16); NextOffset(slots, 17); NextOffset(slots, 18);
  }

  lemma EntryOffsets(ph: ProgramHeader)
    ensures var slots := EntrySlots(ph);
            && Offset(slots, 0) == 0 && Offset(slots, 1) == 4 && Offset(slots, 2) == 8 && Offset(slots, 3) == 16
            && Offset(slots, 5) == 32 && Offset(slots, 6) == 40 && Offset(slots, 7) == 48 && Offset(slots, 8) == PROGRAM_HEADER_SIZE
  {
    var slots := EntrySlots(ph);
    assert Offset(slots, 0) == 0;
    hide Offset;
    NextOffset(slots, 0); NextOffset(slots, 1); NextOffset(slots, 2); NextOffset(slots, 3);
    NextOffset(slots, 4); NextOffset(slots, 5); NextOffset(slots, 6); NextOffset(slots, 7);
  }

  function FileHeader(entry: nat, count: nat): (r: Bytes)
    ensures |r| == HEADER_SIZE
  {
    FileOffsets(entry, count);
    Packed(FileSlots(entry, count), 19)
  }

  function TableEntry(ph: ProgramHeader): (r: Bytes)
    ensures |r| == PROGRAM_HEADER_SIZE
  {
    EntryOffsets(ph);
    Packed(EntrySlots(ph), 8)
  }

  /** The first `n` headers as a program header table. */
  function HeaderTable(headers: seq<ProgramHeader>, n: nat): (r: Bytes)
    requires n <= |headers|
    ensures |r| == PROGRAM_HEADER_SIZE * n
  {
    if n == 0 then [] else HeaderTable(headers, n - 1) + TableEntry(headers[n - 1])
  }

  /** An executable: file header, program header table, and whatever follows. */
  function Executable(entry: nat, headers: seq<ProgramHeader>, body: Bytes): (r: Bytes)
    ensures |r| == HEADER_SIZE + PROGRAM_HEADER_SIZE * |headers| + |body|
  {
    FileHeader(entry, |headers|) + HeaderTable(headers, |headers|) + body
  }

  /** The values fit the fields of the format. */
  ghost predicate Encodable(entry: nat, headers: seq<ProgramHeader>) {
    && entry <= U64_MAX && 0 < |headers| < 0x1_0000
    && forall i :: 0 <= i < |headers| ==> EntryEncodable(headers[i])
  }

  ghost predicate EntryEncodable(ph: ProgramHeader) {
    && ph.kind < 0x1_0000_0000 && ph.flags < 0x1_0000_0000 && ph.offset <= U64_MAX && ph.address <= U64_MAX
    && ph.fileSize <= U64_MAX && ph.memorySize <= U64_MAX && ph.alignment <= U64_MAX
  }

  // ---------------------------------------------------------------- reading it back

  lemma SlotRanges()
    ensures Pow256(1) == 0x100 && Pow256(2) == 0x1_0000 && Pow256(4) == 0x1_0000_0000
    ensures Pow256(8) == U64_MAX + 1
  {
    assert Pow256(1) == 0x100 && Pow256(2) == 0x1_0000 && Pow256(3) == 0x100_0000 && Pow256(4) == 0x1_0000_0000;
    WordRange();
  }

  /** A value of the file header, by position. */
  lemma FileField(entry: nat, count: nat, after: Bytes, i: nat)
    requires i < 19 && i != 7 && i != 18 && entry <= U64_MAX && count < 0x1_0000
    ensures var slot := FileSlots(entry, count)[i];
            && Offset(FileSlots(entry, count), i) + slot.size <= |FileHeader(entry, count) + after|
            && Field(FileHeader(entry, count) + after, Offset(FileSlots(entry, count), i), slot.size) == slot.value
  {
    SlotRanges();
    SlotReadBack([], FileSlots(entry, count), after, i);
    assert [] + Packed(FileSlots(entry, count), 19) + after == FileHeader(entry, count) + after;
  }

  lemma FieldOfOne(image: Bytes, at: nat)
    requires at < |image|
    ensures Field(image, at, 1) == image[at]
  {
    assert image[at..at + 1] == [image[at]];
    assert Decode([image[at]]) == image[at] + 256 * Decode([image[at]][1..]);
  }

  lemma Identified(entry: nat, count: nat, after: Bytes)
    requires entry <= U64_MAX && count < 0x1_0000
    ensures var image := FileHeader(entry, count) + after;
            && image[0..4] == [0x7f, 0x45, 0x4c, 0x46] && image[4] == 2 && image[5] == 1 && image[6] == 1
  {
    hide Field, FileHeader;
    var image := FileHeader(entry, count) + after;
    FileOffsets(entry, count);
    forall i: nat | i < 7 ensures image[i] == FileSlots(entry, count)[i].value {
      FileField(entry, count, after, i);
      FieldOfOne(image, i);
    }
  }

  /** The parser takes the file header of an executable and reads its entry and table back. */
  lemma HeaderParses(entry: nat, count: nat, after: Bytes)
    requires entry <= U64_MAX && 0 < count < 0x1_0000 && PROGRAM_HEADER_SIZE * count <= |after|
    ensures Parse(FileHeader(entry, count) + after) == Ok(Header(entry, HEADER_SIZE, count))
  {
    hide Field, FileHeader;
    Identified(entry, count, after);
    FileOffsets(entry, count);
    FileField(entry, count, after, 8);
    FileField(entry, count, after, 9);
    FileField(entry, count, after, 10);
    FileField(entry, count, after, 11);
    FileField(entry, count, after, 12);
    FileField(entry, count, after, 15);
    FileField(entry, count, after, 16);
    FileField(entry, count, after, 17);
  }

  lemma EntryReadBack(before: Bytes, ph: ProgramHeader, after: Bytes)
    requires EntryEncodable(ph)
    ensures EntryBytes(before + TableEntry(ph) + after, |before|) == ph
  {
    hide Field, Packed;
    SlotRanges();
    EntryOffsets(ph);
    var slots := EntrySlots(ph);
    SlotReadBack(before, slots, after, 0);
    SlotReadBack(before, slots, after, 1);
    SlotReadBack(before, slots, after, 2);
    SlotReadBack(before, slots, after, 3);
    SlotReadBack(before, slots, after, 5);
    SlotReadBack(before, slots, after, 6);
    SlotReadBack(before, slots, after, 7);
  }

  /** The table cut around one entry. */
  lemma {:induction false} TableAround(headers: seq<ProgramHeader>, n: nat, i: nat) returns (after: Bytes)
    requires i < n <= |headers|
    ensures HeaderTable(headers, n) == HeaderTable(headers, i) + TableEntry(headers[i]) + after
    decreases n
  {
    hide TableEntry;
    if i == n - 1 {
      after := [];
    } else {
      var most := TableAround(headers, n - 1, i);
      after := most + TableEntry(headers[n - 1]);
      AppendAssociates(HeaderTable(headers, i) + TableEntry(headers[i]), most, TableEntry(headers[n - 1]));
    }
  }

  lemma TableReadBack(entry: nat, headers: seq<ProgramHeader>, body: Bytes, i: nat)
    requires Encodable(entry, headers) && i < |headers|
    ensures EntryBytes(Executable(entry, headers, body), HEADER_SIZE + PROGRAM_HEADER_SIZE * i) == headers[i]
  {
    hide EntryBytes, TableEntry, FileHeader, EntryEncodable;
    var file := FileHeader(entry, |headers|);
    var after := TableAround(headers, |headers|, i);
    var before, rest := file + HeaderTable(headers, i), after + body;
    assert Executable(entry, headers, body) == before + TableEntry(headers[i]) + rest;
    EntryReadBack(before, headers[i], rest);
  }

  /** Parsing undoes the layout: entry point, table and every program header come back. */
  lemma ExecutableParses(entry: nat, headers: seq<ProgramHeader>, body: Bytes)
    requires Encodable(entry, headers)
    ensures Parse(Executable(entry, headers, body)) == Ok(Header(entry, HEADER_SIZE, |headers|))
    ensures ImageHeaders(Executable(entry, headers, body)) == headers
  {
    hide EntryBytes, FileHeader, HeaderTable, Parse;
    var image := Executable(entry, headers, body);
    var rest := HeaderTable(headers, |headers|) + body;
    assert image == FileHeader(entry, |headers|) + rest;
    HeaderParses(entry, |headers|, rest);
    var read := ImageHeaders(image);
    forall i: nat | i < |headers| ensures read[i] == headers[i] {
      TableReadBack(entry, headers, body, i);
    }
  }

  // ---------------------------------------------------------------- accepted, and yet not loadable

  /** One readable, executable page of zeros, entered at its first byte. */
  function ZeroSegment(page: nat): ProgramHeader {
    ProgramHeader(1, PF_READ + PF_EXECUTE, 0, page * PAGE_SIZE, 0, PAGE_SIZE, PAGE_SIZE)
  }

  /** `count` copies of the same one-page segment. */
  function ZeroImage(page: nat, count: nat): Bytes {
    Executable(page * PAGE_SIZE, seq(count, _ => ZeroSegment(page)), [])
  }

  lemma PowerOfTwoPage()
    ensures PowerOfTwo(PAGE_SIZE)
  {
    assert PowerOfTwo(1) && PowerOfTwo(2) && PowerOfTwo(4) && PowerOfTwo(8) && PowerOfTwo(16) && PowerOfTwo(32);
    assert PowerOfTwo(64) && PowerOfTwo(128) && PowerOfTwo(256) && PowerOfTwo(512) && PowerOfTwo(1024) && PowerOfTwo(2048);
  }

  lemma ZeroSegmentLoadable(image: Bytes, page: nat)
    requires 0 < page && (page + 1) * PAGE_SIZE < USER_SPACE_END
    ensures Loadable(image, ZeroSegment(page)) && CarriesEntry(ZeroSegment(page), page * PAGE_SIZE)
    ensures FirstPage(ZeroSegment(page)) == LastPage(ZeroSegment(page)) == page && RoundedEnd(ZeroSegment(page)) == page + 1
    ensures EntryEncodable(ZeroSegment(page))
  {
    PowerOfTwoPage();
    PowersExact(PAGE_SIZE);
    hide IsTwoTo, PowerOfTwo;
  }

  /** Every such image is accepted, with the heap on the page after the segment. */
  lemma ZeroImageAccepted(page: nat, count: nat)
    requires 0 < page && (page + 1) * PAGE_SIZE < USER_SPACE_END && 0 < count < 0x1_0000
    ensures Metadata(ZeroImage(page, count)) == Ok(LoadedElf(page * PAGE_SIZE, page + 1))
    ensures ImageHeaders(ZeroImage(page, count)) == seq(count, _ => ZeroSegment(page))
  {
    hide Parse, Metadata, Loadable, CarriesEntry, EntryEncodable, Executable, ZeroSegment, RoundedEnd;
    var image, entry := ZeroImage(page, count), page * PAGE_SIZE;
    var headers := seq(count, _ => ZeroSegment(page));
    ZeroSegmentLoadable(image, page);
    ExecutableParses(entry, headers, []);
    AcceptedImage(image);
    assert CarriesEntry(headers[0], entry);
    ZeroSegmentIsLoad(page);
    assert headers[0].IsLoad();
  }

  lemma ZeroSegmentIsLoad(page: nat)
    ensures ZeroSegment(page).IsLoad()
  {
  }

  /** First way an accepted image stops the kernel: two load segments on one page. */
  lemma OverlapAccepted(page: nat)
    requires 0 < page && (page + 1) * PAGE_SIZE < USER_SPACE_END
    ensures Metadata(ZeroImage(page, 2)).Ok? && SharedPage(ImageHeaders(ZeroImage(page, 2)))
  {
    hide Metadata, ImageHeaders, ZeroImage;
    ZeroImageAccepted(page, 2);
    ZeroSegmentLoadable([], page);
    var headers := ImageHeaders(ZeroImage(page, 2));
    assert OnPage(headers[0], page) && OnPage(headers[1], page);
  }

  /** Second way: a load segment in the stack region. */
  lemma StackSegmentAccepted(page: nat)
    requires STACK_REGION_PAGE <= page && (page + 1) * PAGE_SIZE < USER_SPACE_END
    ensures Metadata(ZeroImage(page, 1)).Ok? && StackPage(ImageHeaders(ZeroImage(page, 1)))
    ensures !SharedPage(ImageHeaders(ZeroImage(page, 1)))
  {
    hide Metadata, ImageHeaders, ZeroImage;
    ZeroImageAccepted(page, 1);
    ZeroSegmentLoadable([], page);
    var headers := ImageHeaders(ZeroImage(page, 1));
    assert OnPage(headers[0], page);
  }

  /** Third way: a load segment so high that the heap would start beyond its limit. */
  lemma HighHeapAccepted(page: nat)
    requires HEAP_END_PAGE - 1 <= page < STACK_REGION_PAGE
    ensures Metadata(ZeroImage(page, 1)).Ok? && HEAP_END_PAGE <= Metadata(ZeroImage(page, 1)).value.heapStart
    ensures !SharedPage(ImageHeaders(ZeroImage(page, 1))) && !StackPage(ImageHeaders(ZeroImage(page, 1)))
  {
    hide Metadata, ImageHeaders, ZeroImage;
    ZeroImageAccepted(page, 1);
    ZeroSegmentLoadable([], page);
    var headers := ImageHeaders(ZeroImage(page, 1));
    forall i: nat, other: nat | i < |headers| && OnPage(headers[i], other) ensures other == page {
    }
  }

  /** And one that the mapping pass cannot map inside the process window: a load segment below it. */
  lemma LowSegmentAccepted(page: nat)
    requires 0 < page < WINDOW_PAGE
    ensures Metadata(ZeroImage(page, 1)).Ok? && !StartsInWindow(ImageHeaders(ZeroImage(page, 1)))
  {
    hide Metadata, ImageHeaders, ZeroImage;
    ZeroImageAccepted(page, 1);
    ZeroSegmentLoadable([], page);
    var headers := ImageHeaders(ZeroImage(page, 1));
    assert headers[0].IsLoad() && FirstPage(headers[0]) == page;
  }
}
