/** ELF64 parsing and the validation pass that computes entry point and heap start. */
module Elf {
  import opened Machine
  import opened LittleEndian

  const HEADER_SIZE: nat := 64
  const PROGRAM_HEADER_SIZE: nat := 56

  datatype ElfError =
    | HeaderTooSmall
    | BadMagic
    | UnsupportedClass
    | UnsupportedEndian
    | UnsupportedVersion
    | UnsupportedType
    | UnsupportedMachine
    | UnsupportedProgramHeaderSize
    | EmptyProgramHeaderTable
    | ProgramHeaderTableOutOfBounds

  datatype LoadError =
    | Malformed(error: ElfError)
    | EntryOutOfRange
    | NoLoadSegments
    | SegmentAddressOutOfRange
    | SegmentAlignmentUnsupported
    | SegmentPermissionUnsupported
    | SegmentFileOutOfBounds
    | SegmentFileLargerThanMemory

  datatype Result<+T> = Ok(value: T) | Err(error: LoadError)

  datatype Header = Header(entry: nat, tableOffset: nat, count: nat)

  datatype ProgramHeader = ProgramHeader(
    kind: nat, flags: nat, offset: nat, address: nat, fileSize: nat, memorySize: nat, alignment: nat)
  {
    predicate IsLoad() {
      kind == 1
    }
  }

  datatype LoadedElf = LoadedElf(entry: nat, heapStart: nat)

  // ---------------------------------------------------------------- parser

  function Field(bytes: Bytes, offset: nat, size: nat): nat
    requires offset + size <= |bytes|
  {
    Decode(bytes[offset..offset + size])
  }

  /** `ElfFile::parse`. */
  function Parse(image: Bytes): Result<Header> {
    if |image| < HEADER_SIZE then Err(Malformed(HeaderTooSmall))
    else if image[0..4] != [0x7f, 0x45, 0x4c, 0x46] then Err(Malformed(BadMagic))
    else if image[4] != 2 then Err(Malformed(UnsupportedClass))
    else if image[5] != 1 then Err(Malformed(UnsupportedEndian))
    else if image[6] != 1 then Err(Malformed(UnsupportedVersion))
    else if Field(image, 16, 2) != 2 then Err(Malformed(UnsupportedType))
    else if Field(image, 18, 2) != 0x3e then Err(Malformed(UnsupportedMachine))
    else if Field(image, 20, 4) != 1 then Err(Malformed(UnsupportedVersion))
    else if Field(image, 52, 2) != HEADER_SIZE then Err(Malformed(HeaderTooSmall))
    else if Field(image, 54, 2) != PROGRAM_HEADER_SIZE then Err(Malformed(UnsupportedProgramHeaderSize))
    else if Field(image, 56, 2) == 0 then Err(Malformed(EmptyProgramHeaderTable))
    else
      var count, start := Field(image, 56, 2), Field(image, 32, 8);
      if start + PROGRAM_HEADER_SIZE * count > U64_MAX || start + PROGRAM_HEADER_SIZE * count > |image|
      then Err(Malformed(ProgramHeaderTableOutOfBounds))
      else Ok(Header(Field(image, 24, 8), start, count))
  }

  /** The whole program header table lies inside the image. */
  ghost predicate TableInside(image: Bytes, header: Header) {
    header.tableOffset + PROGRAM_HEADER_SIZE * header.count <= |image|
  }

  function EntryBytes(image: Bytes, start: nat): ProgramHeader
    requires start + PROGRAM_HEADER_SIZE <= |image|
  {
    ProgramHeader(
      Field(image, start, 4), Field(image, start + 4, 4), Field(image, start + 8, 8), Field(image, start + 16, 8),
      Field(image, start + 32, 8), Field(image, start + 40, 8), Field(image, start + 48, 8))
  }

  /** `ProgramHeaderIter::next`: after a successful parse no entry is out of bounds. */
  function HeaderAt(image: Bytes, header: Header, index: nat): ProgramHeader
    requires TableInside(image, header) && index < header.count
  {
    EntryBytes(image, header.tableOffset + PROGRAM_HEADER_SIZE * index)
  }

  function Headers(image: Bytes, header: Header): (r: seq<ProgramHeader>)
    requires TableInside(image, header)
    ensures |r| == header.count
  {
    seq(header.count, i requires 0 <= i < header.count => HeaderAt(image, header, i))
  }

  lemma ParsedTableInside(image: Bytes)
    requires Parse(image).Ok?
    ensures TableInside(image, Parse(image).value) && 0 < Parse(image).value.count
  {
  }

  // ---------------------------------------------------------------- the format, byte by byte

  function Two(bytes: Bytes, at: nat): nat
    requires at + 2 <= |bytes|
  {
    bytes[at] as nat + 0x100 * (bytes[at + 1] as nat)
  }

  function Four(bytes: Bytes, at: nat): nat
    requires at + 4 <= |bytes|
  {
    Two(bytes, at) + 0x1_0000 * Two(bytes, at + 2)
  }

  function Eight(bytes: Bytes, at: nat): nat
    requires at + 8 <= |bytes|
  {
    Four(bytes, at) + 0x1_0000_0000 * Four(bytes, at + 4)
  }

  lemma FieldStep(bytes: Bytes, at: nat, size: nat)
    requires 0 < size && at + size <= |bytes|
    ensures Field(bytes, at, size) == bytes[at] + 256 * Field(bytes, at + 1, size - 1)
  {
    assert bytes[at..at + size][1..] == bytes[at + 1..at + size];
  }

  lemma FieldTwo(bytes: Bytes, at: nat)
    requires at + 2 <= |bytes|
    ensures Field(bytes, at, 2) == Two(bytes, at)
  {
    FieldStep(bytes, at, 2);
    FieldStep(bytes, at + 1, 1);
    assert Field(bytes, at + 2, 0) == 0;
  }

  lemma FieldFour(bytes: Bytes, at: nat)
    requires at + 4 <= |bytes|
    ensures Field(bytes, at, 4) == Four(bytes, at)
  {
    hide Field;
    FieldStep(bytes, at, 4);
    FieldStep(bytes, at + 1, 3);
    FieldTwo(bytes, at + 2);
  }

  lemma FieldEight(bytes: Bytes, at: nat)
    requires at + 8 <= |bytes|
    ensures Field(bytes, at, 8) == Eight(bytes, at)
  {
    hide Field;
    FieldStep(bytes, at, 8);
    FieldStep(bytes, at + 1, 7);
    FieldStep(bytes, at + 2, 6);
    FieldStep(bytes, at + 3, 5);
    FieldFour(bytes, at + 4);
  }

  /** A little-endian 64-bit executable for x86-64 of version 1, with a header of 64 bytes and a
      program header table of 56-byte entries that is not empty and lies in the file. */
  ghost predicate WellFormed(image: Bytes) {
    && 64 <= |image| && image[0] == 0x7f && image[1] == 0x45 && image[2] == 0x4c && image[3] == 0x46
    && image[4] == 2 && image[5] == 1 && image[6] == 1
    && Two(image, 16) == 2 && Two(image, 18) == 0x3e && Four(image, 20) == 1
    && Two(image, 52) == 64 && Two(image, 54) == 56 && Two(image, 56) != 0
    && Eight(image, 32) + 56 * Two(image, 56) <= |image| && Eight(image, 32) + 56 * Two(image, 56) <= 0xffff_ffff_ffff_ffff
  }

  /** Exactly the well-formed files parse, and their header says where the entry point is and where the
      program headers are. */
  lemma ParseExact(image: Bytes)
    ensures Parse(image).Ok? <==> WellFormed(image)
    ensures Parse(image).Ok? ==> Parse(image).value == Header(Eight(image, 24), Eight(image, 32), Two(image, 56))
  {
    hide Field;
    if 64 <= |image| {
      FieldTwo(image, 16);
      FieldTwo(image, 18);
      FieldFour(image, 20);
      FieldEight(image, 24);
      FieldEight(image, 32);
      FieldTwo(image, 52);
      FieldTwo(image, 54);
      FieldTwo(image, 56);
      assert image[0..4] == [image[0], image[1], image[2], image[3]];
    }
  }

  /** The fields of a program header, by their place in its 56 bytes. */
  lemma HeaderExact(image: Bytes, header: Header, index: nat)
    requires TableInside(image, header) && index < header.count
    ensures var at, ph := header.tableOffset + 56 * index, Headers(image, header)[index];
            && ph.kind == Four(image, at) && ph.flags == Four(image, at + 4) && ph.offset == Eight(image, at + 8)
            && ph.address == Eight(image, at + 16) && ph.fileSize == Eight(image, at + 32)
            && ph.memorySize == Eight(image, at + 40) && ph.alignment == Eight(image, at + 48)
  {
    hide Field;
    var at := header.tableOffset + 56 * index;
    FieldFour(image, at);
    FieldFour(image, at + 4);
    FieldEight(image, at + 8);
    FieldEight(image, at + 16);
    FieldEight(image, at + 32);
    FieldEight(image, at + 40);
    FieldEight(image, at + 48);
  }

  // ---------------------------------------------------------------- one segment

  predicate UserAddress(address: nat) {
    0 < address < USER_SPACE_END
  }

  /** A validated segment: its bytes in memory, its pages, and the end of its file bytes. */
  datatype Segment = Segment(start: nat, end: nat, firstPage: nat, lastPage: nat, fileEnd: nat)

  /** `LoadSegmentRange::from_program_header`. */
  function SegmentRange(ph: ProgramHeader): Result<Segment> {
    if ph.memorySize == 0 || !UserAddress(ph.address) || ph.address + ph.memorySize > USER_SPACE_END
    then Err(SegmentAddressOutOfRange)
    else if ph.address < PAGE_SIZE then Err(SegmentAddressOutOfRange)
    else if ph.fileSize > 0 && ph.address + ph.fileSize > USER_SPACE_END then Err(SegmentAddressOutOfRange)
    else Ok(Segment(ph.address, ph.address + ph.memorySize, ph.address / PAGE_SIZE,
                    (ph.address + ph.memorySize - 1) / PAGE_SIZE, ph.address + ph.fileSize))
  }

  function HasBit(flags: nat, bit: nat): bool
    requires 0 < bit
  {
    flags / bit % 2 == 1
  }

  const PF_EXECUTE: nat := 1
  const PF_WRITE: nat := 2
  const PF_READ: nat := 4

  predicate SupportedPermissions(flags: nat) {
    HasBit(flags, PF_READ) && !(HasBit(flags, PF_WRITE) && HasBit(flags, PF_EXECUTE))
  }

  predicate PowerOfTwo(n: nat) {
    n == 1 || (0 < n && n % 2 == 0 && PowerOfTwo(n / 2))
  }

  predicate SupportedAlignment(ph: ProgramHeader) {
    && (ph.alignment <= 1 || PowerOfTwo(ph.alignment))
    && ph.address % PAGE_SIZE == 0 && ph.offset % PAGE_SIZE == 0
    && (ph.alignment <= 1 || ph.address % ph.alignment == ph.offset % ph.alignment)
  }

  /** `validate_load_segment`: accepts an empty segment, which the range check then refuses. */
  function ValidateSegment(image: Bytes, ph: ProgramHeader): Result<()> {
    if ph.memorySize == 0 then Ok(())
    else if ph.fileSize > ph.memorySize then Err(SegmentFileLargerThanMemory)
    else if !SupportedAlignment(ph) then Err(SegmentAlignmentUnsupported)
    else if !SupportedPermissions(ph.flags) then Err(SegmentPermissionUnsupported)
    else match SegmentRange(ph)
      case Err(error) => Err(error)
      case Ok(segment) =>
        if ph.offset + ph.fileSize > U64_MAX || ph.offset + ph.fileSize > |image| then Err(SegmentFileOutOfBounds)
        else if ph.fileSize > 0 && segment.fileEnd > segment.end then Err(SegmentFileLargerThanMemory)
        else Ok(())
  }

  /** `heap_start_after_segment`, as a page. */
  function HeapStartAfter(segment: Segment): Result<nat> {
    var page := (segment.end + (PAGE_SIZE - 1)) / PAGE_SIZE;
    if !UserAddress(segment.end) || page * PAGE_SIZE >= USER_SPACE_END then Err(SegmentAddressOutOfRange) else Ok(page)
  }

  predicate HoldsEntry(ph: ProgramHeader, segment: Segment, entry: nat) {
    HasBit(ph.flags, PF_EXECUTE) && segment.start <= entry < segment.end
  }

  // ---------------------------------------------------------------- all segments

  /** What the loop over program headers has gathered. */
  datatype Scan = Scan(loads: nat, entryFound: bool, heapStart: Option<nat>)

  const EMPTY_SCAN := Scan(0, false, None)

  function ScanSegment(scan: Scan, ph: ProgramHeader, segment: Segment, heap: nat, entry: nat): Scan {
    Scan(scan.loads + 1, scan.entryFound || HoldsEntry(ph, segment, entry),
         Some(if scan.heapStart.Some? && scan.heapStart.value >= heap then scan.heapStart.value else heap))
  }

  function ScanStep(image: Bytes, entry: nat, scan: Scan, ph: ProgramHeader): Result<Scan> {
    if !ph.IsLoad() then Ok(scan)
    else match ValidateSegment(image, ph)
      case Err(error) => Err(error)
      case Ok(_) =>
        match SegmentRange(ph) {
          case Err(error) => Err(error)
          case Ok(segment) =>
            match HeapStartAfter(segment) {
              case Err(error) => Err(error)
              case Ok(heap) => Ok(ScanSegment(scan, ph, segment, heap, entry))
            }
        }
  }

  /** The first error, or the scan after every header from `index` on. */
  function ScanFrom(image: Bytes, entry: nat, headers: seq<ProgramHeader>, index: nat, scan: Scan): Result<Scan>
    requires index <= |headers|
    decreases |headers| - index
  {
    if index == |headers| then Ok(scan)
    else match ScanStep(image, entry, scan, headers[index])
      case Err(error) => Err(error)
      case Ok(next) => ScanFrom(image, entry, headers, index + 1, next)
  }

  function Conclude(entry: nat, scan: Scan): Result<LoadedElf> {
    if scan.loads == 0 then Err(NoLoadSegments)
    else if !scan.entryFound then Err(EntryOutOfRange)
    else match scan.heapStart
      case None => Err(NoLoadSegments)
      case Some(heap) => Ok(LoadedElf(entry, heap))
  }

  /** `load_user_elf_metadata`. */
  function Metadata(image: Bytes): Result<LoadedElf> {
    match Parse(image)
    case Err(error) => Err(error)
    case Ok(header) =>
      if !UserAddress(header.entry) then Err(EntryOutOfRange)
      else
        ParsedTableInside(image);
        match ScanFrom(image, header.entry, Headers(image, header), 0, EMPTY_SCAN) {
          case Err(error) => Err(error)
          case Ok(scan) => Conclude(header.entry, scan)
        }
  }

  /** The validation pass as the loop the source runs. */
  method LoadMetadata(image: Bytes) returns (r: Result<LoadedElf>)
    ensures r == Metadata(image)
  {
    var parsed := Parse(image);
    if parsed.Err? {
      return Err(parsed.error);
    }
    var header := parsed.value;
    ParsedTableInside(image);
    if !UserAddress(header.entry) {
      return Err(EntryOutOfRange);
    }
    ghost var headers := Headers(image, header);
    var scan := EMPTY_SCAN;
    for index := 0 to header.count
      invariant ScanFrom(image, header.entry, headers, 0, EMPTY_SCAN) == ScanFrom(image, header.entry, headers, index, scan)
    {
      var step := ScanStep(image, header.entry, scan, HeaderAt(image, header, index));
      if step.Err? {
        return Err(step.error);
      }
      scan := step.value;
    }
    return Conclude(header.entry, scan);
  }

  // ---------------------------------------------------------------- what acceptance means

  function FirstPage(ph: ProgramHeader): nat {
    ph.address / PAGE_SIZE
  }

  function LastPage(ph: ProgramHeader): nat {
    Max(ph.address + ph.memorySize - 1, 0) / PAGE_SIZE
  }

  /** First page after the segment. */
  function RoundedEnd(ph: ProgramHeader): nat {
    (ph.address + ph.memorySize + (PAGE_SIZE - 1)) / PAGE_SIZE
  }

  predicate OnPage(ph: ProgramHeader, page: nat) {
    ph.IsLoad() && FirstPage(ph) <= page <= LastPage(ph)
  }

  /** A segment is on the pages that hold one of its bytes. */
  lemma OnPageExact(ph: ProgramHeader, page: nat)
    requires 0 < ph.memorySize
    ensures OnPage(ph, page) <==>
              ph.kind == 1 && exists address :: ph.address <= address < ph.address + ph.memorySize && OfPage(address, page)
  {
    if ph.kind == 1 && FirstPage(ph) <= page <= LastPage(ph) {
      assert OfPage(Max(ph.address, page * PAGE_SIZE), page);
    }
  }

  predicate OfPage(address: nat, page: nat) {
    page * 4096 <= address < page * 4096 + 4096
  }

  /** The page after a segment is the first that holds none of its bytes nor any below them. */
  lemma RoundedEndExact(ph: ProgramHeader)
    requires 0 < ph.memorySize
    ensures (RoundedEnd(ph) - 1) * 4096 < ph.address + ph.memorySize <= RoundedEnd(ph) * 4096
    ensures RoundedEnd(ph) == LastPage(ph) + 1
  {
  }

  /** A load segment the validator takes: not empty, page aligned, readable and never writable
      and executable at once, its file bytes inside the file and the segment, and room after it
      below the end of user space. */
  ghost predicate Loadable(image: Bytes, ph: ProgramHeader) {
    && 0 < ph.memorySize && ph.fileSize <= ph.memorySize && PAGE_SIZE <= ph.address
    && ph.offset + ph.fileSize <= |image| && ph.offset + ph.fileSize <= U64_MAX
    && ph.address % PAGE_SIZE == 0 && ph.offset % PAGE_SIZE == 0
    && (1 < ph.alignment ==> IsTwoTo(ph.alignment) && ph.address % ph.alignment == ph.offset % ph.alignment)
    && ph.flags / 4 % 2 == 1 && !(ph.flags / 2 % 2 == 1 && ph.flags % 2 == 1)
    && RoundedEnd(ph) * PAGE_SIZE < USER_SPACE_END
  }

  function TwoTo(n: nat): nat {
    if n == 0 then 1 else 2 * TwoTo(n - 1)
  }

  ghost predicate IsTwoTo(power: nat) {
    exists n: nat :: power == TwoTo(n)
  }

  lemma {:induction false} PowerIsTwoTo(power: nat)
    requires PowerOfTwo(power)
    ensures IsTwoTo(power)
  {
    if power == 1 {
      assert TwoTo(0) == 1;
    } else {
      PowerIsTwoTo(power / 2);
      var n: nat :| power / 2 == TwoTo(n);
      assert TwoTo(n + 1) == power;
    }
  }

  lemma {:induction false} TwoToIsPower(n: nat)
    ensures 0 < TwoTo(n) && PowerOfTwo(TwoTo(n))
  {
    if n > 0 {
      TwoToIsPower(n - 1);
      assert TwoTo(n) / 2 == TwoTo(n - 1);
    }
  }

  lemma PowersExact(n: nat)
    ensures PowerOfTwo(n) <==> IsTwoTo(n)
  {
    if PowerOfTwo(n) {
      PowerIsTwoTo(n);
    }
    if k: nat :| n == TwoTo(k) {
      TwoToIsPower(k);
    }
  }

  /** An executable load segment with the entry point inside. */
  predicate CarriesEntry(ph: ProgramHeader, entry: nat) {
    ph.kind == 1 && ph.flags % 2 == 1 && ph.address <= entry < ph.address + ph.memorySize
  }

  lemma StepAccepts(image: Bytes, entry: nat, scan: Scan, ph: ProgramHeader)
    requires ph.IsLoad()
    ensures ScanStep(image, entry, scan, ph).Ok? <==> Loadable(image, ph)
    ensures Loadable(image, ph) ==>
              && SegmentRange(ph) == Ok(Segment(ph.address, ph.address + ph.memorySize, FirstPage(ph), LastPage(ph),
                                                ph.address + ph.fileSize))
              && ScanStep(image, entry, scan, ph).value == ScanSegment(scan, ph, SegmentRange(ph).value, RoundedEnd(ph), entry)
              && FirstPage(ph) <= LastPage(ph) < RoundedEnd(ph)
  {
    hide PowerOfTwo, IsTwoTo, SupportedPermissions;
    PowersExact(ph.alignment);
    PermissionsExact(ph.flags);
  }

  lemma PermissionsExact(flags: nat)
    ensures SupportedPermissions(flags) <==> flags / 4 % 2 == 1 && !(flags / 2 % 2 == 1 && flags % 2 == 1)
    ensures HasBit(flags, PF_EXECUTE) <==> flags % 2 == 1
  {
  }

  /** All load segments from `index` on are loadable. */
  ghost predicate AllLoadable(image: Bytes, headers: seq<ProgramHeader>, index: nat) {
    forall i :: index <= i < |headers| && headers[i].IsLoad() ==> Loadable(image, headers[i])
  }

  ghost predicate SomeLoad(headers: seq<ProgramHeader>, index: nat) {
    exists i :: index <= i < |headers| && headers[i].IsLoad()
  }

  ghost predicate SomeEntry(headers: seq<ProgramHeader>, index: nat, entry: nat) {
    exists i :: index <= i < |headers| && CarriesEntry(headers[i], entry)
  }

  /** `heap` is the largest end of a load segment, or `floor` if that is larger. */
  ghost predicate LargestEnd(headers: seq<ProgramHeader>, index: nat, floor: Option<nat>, heap: nat) {
    && (floor.Some? ==> floor.value <= heap)
    && (forall i :: index <= i < |headers| && headers[i].IsLoad() ==> RoundedEnd(headers[i]) <= heap)
    && (floor == Some(heap) || exists i :: index <= i < |headers| && headers[i].IsLoad() && RoundedEnd(headers[i]) == heap)
  }

  /** The scan succeeds exactly when every load segment is loadable, and gathers whether there was
      one, whether one carries the entry, and the largest end. */
  lemma {:induction false} ScanExact(image: Bytes, entry: nat, headers: seq<ProgramHeader>, index: nat, scan: Scan)
    requires index <= |headers| && (scan.loads > 0 <==> scan.heapStart.Some?)
    ensures ScanFrom(image, entry, headers, index, scan).Ok? <==> AllLoadable(image, headers, index)
    ensures ScanFrom(image, entry, headers, index, scan).Ok? ==>
              var last := ScanFrom(image, entry, headers, index, scan).value;
              && (last.loads > 0 <==> last.heapStart.Some?)
              && (last.heapStart.Some? <==> scan.heapStart.Some? || SomeLoad(headers, index))
              && (last.entryFound <==> scan.entryFound || SomeEntry(headers, index, entry))
              && (last.heapStart.Some? ==> LargestEnd(headers, index, scan.heapStart, last.heapStart.value))
    decreases |headers| - index
  {
    hide Loadable, ScanStep, RoundedEnd, CarriesEntry;
    if index < |headers| {
      var ph := headers[index];
      StepGathers(image, entry, scan, ph);
      if ScanStep(image, entry, scan, ph).Ok? {
        var next := ScanStep(image, entry, scan, ph).value;
        ScanExact(image, entry, headers, index + 1, next);
        if ScanFrom(image, entry, headers, index, scan).Ok? {
          GatheredMore(entry, headers, index, scan, next, ScanFrom(image, entry, headers, index, scan).value);
        }
      }
    }
  }

  lemma StepGathers(image: Bytes, entry: nat, scan: Scan, ph: ProgramHeader)
    ensures ScanStep(image, entry, scan, ph).Ok? <==> (ph.IsLoad() ==> Loadable(image, ph))
    ensures ScanStep(image, entry, scan, ph).Ok? ==> Gathers(entry, scan, ph, ScanStep(image, entry, scan, ph).value)
  {
    if ph.IsLoad() {
      StepAccepts(image, entry, scan, ph);
    }
  }

  ghost predicate Gathers(entry: nat, scan: Scan, ph: ProgramHeader, next: Scan) {
    if !ph.IsLoad() then next == scan
    else
      && next.loads == scan.loads + 1 && (next.entryFound <==> scan.entryFound || CarriesEntry(ph, entry))
      && next.heapStart
         == if scan.heapStart.Some? && scan.heapStart.value >= RoundedEnd(ph) then scan.heapStart else Some(RoundedEnd(ph))
  }

  lemma GatheredMore(entry: nat, headers: seq<ProgramHeader>, index: nat, scan: Scan, next: Scan, last: Scan)
    requires index < |headers| && Gathers(entry, scan, headers[index], next)
    requires last.heapStart.Some? <==> next.heapStart.Some? || SomeLoad(headers, index + 1)
    requires last.entryFound <==> next.entryFound || SomeEntry(headers, index + 1, entry)
    requires last.heapStart.Some? ==> LargestEnd(headers, index + 1, next.heapStart, last.heapStart.value)
    ensures last.heapStart.Some? <==> scan.heapStart.Some? || SomeLoad(headers, index)
    ensures last.entryFound <==> scan.entryFound || SomeEntry(headers, index, entry)
    ensures last.heapStart.Some? ==> LargestEnd(headers, index, scan.heapStart, last.heapStart.value)
  {
    hide RoundedEnd;
    assert CarriesEntry(headers[index], entry) ==> headers[index].IsLoad();
  }

  /** An image is accepted exactly when it parses, its entry is a user address inside an executable
      load segment, and every load segment is loadable; its heap starts at the largest end. */
  lemma AcceptedImage(image: Bytes)
    ensures Metadata(image).Ok? <==>
            && Parse(image).Ok? && TableInside(image, Parse(image).value) && UserAddress(Parse(image).value.entry)
            && var headers := Headers(image, Parse(image).value);
               AllLoadable(image, headers, 0) && SomeEntry(headers, 0, Parse(image).value.entry)
    ensures Metadata(image).Ok? ==>
              && Metadata(image).value.entry == Parse(image).value.entry
              && LargestEnd(Headers(image, Parse(image).value), 0, None, Metadata(image).value.heapStart)
  {
    if Parse(image).Ok? {
      hide Parse, ScanFrom, Loadable, CarriesEntry, LargestEnd;
      var header := Parse(image).value;
      ParsedTableInside(image);
      var headers := Headers(image, header);
      ScanExact(image, header.entry, headers, 0, EMPTY_SCAN);
      EntryIsLoad(headers, header.entry);
    }
  }

  lemma EntryIsLoad(headers: seq<ProgramHeader>, entry: nat)
    ensures SomeEntry(headers, 0, entry) ==> SomeLoad(headers, 0)
  {
  }

  // ---------------------------------------------------------------- what refusal means

  /** The first thing wrong with a load segment, in the order in which the validator looks. */
  ghost function Fault(image: Bytes, ph: ProgramHeader): LoadError
    requires !Loadable(image, ph)
  {
    if ph.memorySize == 0 then SegmentAddressOutOfRange
    else if ph.memorySize < ph.fileSize then SegmentFileLargerThanMemory
    else if !(ph.address % 4096 == 0 && ph.offset % 4096 == 0
              && (1 < ph.alignment ==> IsTwoTo(ph.alignment) && ph.address % ph.alignment == ph.offset % ph.alignment))
    then SegmentAlignmentUnsupported
    else if !(ph.flags / 4 % 2 == 1 && !(ph.flags / 2 % 2 == 1 && ph.flags % 2 == 1)) then SegmentPermissionUnsupported
    else if !(4096 <= ph.address && ph.address + ph.memorySize <= USER_SPACE_END) then SegmentAddressOutOfRange
    else if |image| < ph.offset + ph.fileSize || U64_MAX < ph.offset + ph.fileSize then SegmentFileOutOfBounds
    else SegmentAddressOutOfRange
  }

  lemma StepRefuses(image: Bytes, entry: nat, scan: Scan, ph: ProgramHeader)
    requires ph.IsLoad() && !Loadable(image, ph)
    ensures ScanStep(image, entry, scan, ph) == Err(Fault(image, ph))
  {
    hide PowerOfTwo, IsTwoTo, SupportedPermissions;
    PowersExact(ph.alignment);
    PermissionsExact(ph.flags);
  }

  /** `error` is the fault of the first load segment that has one. */
  ghost predicate FirstFault(image: Bytes, headers: seq<ProgramHeader>, index: nat, error: LoadError) {
    exists i :: index <= i < |headers| && FaultAt(image, headers, index, i, error)
  }

  ghost predicate FaultAt(image: Bytes, headers: seq<ProgramHeader>, index: nat, i: nat, error: LoadError)
    requires i < |headers|
  {
    && headers[i].IsLoad() && !Loadable(image, headers[i]) && error == Fault(image, headers[i])
    && forall j :: index <= j < i && headers[j].IsLoad() ==> Loadable(image, headers[j])
  }

  lemma {:induction false} ScanRefuses(image: Bytes, entry: nat, headers: seq<ProgramHeader>, index: nat, scan: Scan)
    requires index <= |headers| && ScanFrom(image, entry, headers, index, scan).Err?
    ensures FirstFault(image, headers, index, ScanFrom(image, entry, headers, index, scan).error)
    decreases |headers| - index
  {
    hide Loadable, ScanStep, Fault;
    var ph := headers[index];
    StepGathers(image, entry, scan, ph);
    if ScanStep(image, entry, scan, ph).Err? {
      StepRefuses(image, entry, scan, ph);
      assert FaultAt(image, headers, index, index, ScanStep(image, entry, scan, ph).error);
    } else {
      ScanRefuses(image, entry, headers, index + 1, ScanStep(image, entry, scan, ph).value);
      var error := ScanFrom(image, entry, headers, index, scan).error;
      var i :| index + 1 <= i < |headers| && FaultAt(image, headers, index + 1, i, error);
      assert FaultAt(image, headers, index, i, error);
    }
  }

  /** A refused image is named by what is wrong with it: the file itself, its entry point, no load
      segment, or the fault of its first bad load segment. */
  lemma RefusedImage(image: Bytes)
    requires Metadata(image).Err?
    ensures match Parse(image)
            case Err(error) => Metadata(image) == Err(error)
            case Ok(header) =>
              var headers := (ParsedTableInside(image); Headers(image, header));
              if !UserAddress(header.entry) then Metadata(image).error == EntryOutOfRange
              else if !AllLoadable(image, headers, 0) then FirstFault(image, headers, 0, Metadata(image).error)
              else Metadata(image).error == if SomeLoad(headers, 0) then EntryOutOfRange else NoLoadSegments
  {
    if Parse(image).Ok? {
      hide Parse, ScanFrom, Loadable, CarriesEntry, LargestEnd, FirstFault;
      var header := Parse(image).value;
      ParsedTableInside(image);
      var headers := Headers(image, header);
      ScanExact(image, header.entry, headers, 0, EMPTY_SCAN);
      EntryIsLoad(headers, header.entry);
      if ScanFrom(image, header.entry, headers, 0, EMPTY_SCAN).Err? {
        ScanRefuses(image, header.entry, headers, 0, EMPTY_SCAN);
      }
    }
  }
}
