/** The initial stack in the frames it is mapped to, and the program image and argument block a
    process starts with, seen through its page table. */
module StackPlacements {
  import opened Machine
  import opened LittleEndian
  import opened FrameTable
  import opened PageTree
  import opened AddressSpace
  import opened UserMappings
  import opened UserStackPages
  import opened StackImage
  import opened EntryReader
  import opened StackRoundTrip

  type PageImages = map<nat, PageImage>

  function Chunk(stack: Bytes, index: nat): Bytes
    requires (index + 1) * PAGE_SIZE <= |stack|
  {
    stack[index * PAGE_SIZE..(index + 1) * PAGE_SIZE]
  }

  /** The stack pages from `base` on, mapped as such, show these bytes. */
  ghost predicate StackShown(images: PageImages, base: nat, count: nat, stack: Bytes) {
    && |stack| == count * PAGE_SIZE
    && forall page: nat :: Within(page, base, base + count) ==> PageShown(images, base, page, stack)
  }

  ghost predicate PageShown(images: PageImages, base: nat, page: nat, stack: Bytes) {
    && page in images && base <= page && (page - base + 1) * PAGE_SIZE <= |stack|
    && DataPage(images[page].mapping) && images[page].content == Some(Chunk(stack, page - base))
  }

  /** The stack of `slot` holds an argument block from which the reader gets `staging`. */
  ghost predicate ArgumentsShown(images: PageImages, slot: nat, count: nat, prepared: PreparedStack, staging: Staging) {
    exists stack: Bytes :: StackShown(images, SlotPage(slot), count, stack) && ReadsBack(stack, SlotBase(slot), prepared, staging)
  }

  /** `is_user_range_mapped_readable`: user data pages only, nothing executable. */
  predicate Readable(mapping: Mapping) {
    UserAccessible in mapping.flags && NoExecute in mapping.flags
  }

  /** Byte `k` of a page is one of those the reader sees. */
  ghost predicate Shown(images: PageImages, page: nat, k: nat) {
    page in images && Readable(images[page].mapping) && images[page].content.Some? && k < |images[page].content.value|
  }

  ghost predicate ReadsByte(memory: UserMemory, images: PageImages, page: nat, k: nat) {
    var a := page * PAGE_SIZE + k;
    if Shown(images, page, k) then a in memory && memory[a] == images[page].content.value[k] else a !in memory
  }

  /** User memory as the kernel's reader sees it, in so far as it belongs to these pages: their
      bytes where they are readable, and nothing where they are not. */
  ghost predicate Reads(memory: UserMemory, images: PageImages) {
    forall page: nat, k: nat :: page in images && k < PAGE_SIZE ==> ReadsByte(memory, images, page, k)
  }

  ghost function ReadableAddresses(images: PageImages): set<nat> {
    set page: nat, k: nat | page in images && k < PAGE_SIZE && Shown(images, page, k) :: page * PAGE_SIZE + k
  }

  /** The readable bytes of these pages by address. */
  ghost function ReadableBytes(images: PageImages): UserMemory {
    map a: nat | a in ReadableAddresses(images) :: ByteAt(images, a)
  }

  ghost function ByteAt(images: PageImages, a: nat): Byte {
    if Shown(images, a / PAGE_SIZE, a % PAGE_SIZE) then images[a / PAGE_SIZE].content.value[a % PAGE_SIZE] else 0
  }

  /** There is such a memory, whatever the pages. */
  lemma ReadableBytesRead(images: PageImages)
    ensures Reads(ReadableBytes(images), images)
  {
    forall page: nat, k: nat | page in images && k < PAGE_SIZE ensures ReadsByte(ReadableBytes(images), images, page, k) {
      AddressParts(page, k);
      if page * PAGE_SIZE + k in ReadableAddresses(images) {
        var p: nat, m: nat :| p in images && m < PAGE_SIZE && Shown(images, p, m) && p * PAGE_SIZE + m == page * PAGE_SIZE + k;
        AddressParts(p, m);
      }
    }
  }

  lemma AddressParts(page: nat, k: nat)
    requires k < PAGE_SIZE
    ensures (page * PAGE_SIZE + k) / PAGE_SIZE == page && (page * PAGE_SIZE + k) % PAGE_SIZE == k
  {
  }

  lemma ShownByte(memory: UserMemory, images: PageImages, base: nat, count: nat, stack: Bytes, offset: nat)
    requires Reads(memory, images) && StackShown(images, base, count, stack) && offset < |stack|
    ensures base * PAGE_SIZE + offset in memory && memory[base * PAGE_SIZE + offset] == stack[offset]
  {
    var page, k := base + offset / PAGE_SIZE, offset % PAGE_SIZE;
    assert Within(page, base, base + count);
    assert PageShown(images, base, page, stack);
    assert ReadsByte(memory, images, page, k);
    var content := images[page].content.value;
    assert content == Chunk(stack, page - base) && |content| == PAGE_SIZE;
    assert images[page].content.value[k] == stack[offset];
    assert page * PAGE_SIZE + k == base * PAGE_SIZE + offset;
  }

  /** Reading through the process's own pages gives the vectors it was started with. */
  lemma ProcessReadsArguments(memory: UserMemory, images: PageImages, slot: nat, count: nat,
                              prepared: PreparedStack, staging: Staging)
    requires Reads(memory, images) && ArgumentsShown(images, slot, count, prepared, staging)
    ensures ReadStaging(memory, prepared.argumentArray, prepared.environmentArray) == EntryReader.Ok(staging)
  {
    hide Reads, StackShown, ReadStaging;
    var stack: Bytes :| StackShown(images, SlotPage(slot), count, stack) && ReadsBack(stack, SlotBase(slot), prepared, staging);
    forall a | SlotBase(slot) <= a < SlotBase(slot) + |stack|
      ensures a in memory && memory[a] == stack[a - SlotBase(slot)]
    {
      ShownByte(memory, images, SlotPage(slot), count, stack, a - SlotBase(slot));
    }
    assert Shows(memory, stack, SlotBase(slot));
  }

  // ---------------------------------------------------------------- writing it

  /** Frames first .. first + upTo hold the stack's pages. */
  ghost predicate Stored(bytes: map<nat, Bytes>, first: nat, upTo: nat, stack: Bytes) {
    forall frame: nat :: Within(frame, first, first + upTo) ==>
      frame in bytes && (frame - first + 1) * PAGE_SIZE <= |stack| && bytes[frame] == Chunk(stack, frame - first)
  }

  ghost predicate SameElsewhere(before: map<nat, Bytes>, after: map<nat, Bytes>, first: nat, count: nat) {
    forall frame: nat :: !Within(frame, first, first + count) ==>
      (frame in before <==> frame in after) && (frame in before ==> after[frame] == before[frame])
  }

  lemma StoredOne(before: map<nat, Bytes>, bytes: map<nat, Bytes>, first: nat, index: nat, count: nat, stack: Bytes)
    requires Stored(bytes, first, index, stack) && index < count && (index + 1) * PAGE_SIZE <= |stack|
    requires SameElsewhere(before, bytes, first, count)
    ensures Stored(bytes[first + index := Chunk(stack, index)], first, index + 1, stack)
    ensures SameElsewhere(before, bytes[first + index := Chunk(stack, index)], first, count)
  {
    hide Chunk;
    var after := bytes[first + index := Chunk(stack, index)];
    forall frame: nat | Within(frame, first, first + (index + 1))
      ensures frame in after && (frame - first + 1) * PAGE_SIZE <= |stack| && after[frame] == Chunk(stack, frame - first)
    {
      assert frame != first + index ==> Within(frame, first, first + index);
    }
  }

  /** Put a stack into the contiguous frames it is mapped to. */
  method StoreStack(space: UserAddressSpace, base: nat, first: nat, count: nat, stack: Bytes)
    requires space.Valid() && Contiguous(space.tree.pages, base, first, count) && |stack| == count * PAGE_SIZE
    modifies space.memory`bytes
    ensures space.Valid() && space.Around() == old(space.Around())
    ensures Stored(space.memory.bytes, first, count, stack)
    ensures SameElsewhere(old(space.memory.bytes), space.memory.bytes, first, count)
  {
    hide UserAddressSpace.Valid, UserAddressSpace.Around, FramesOf, Stored, SameElsewhere;
    ghost var before := space.memory.bytes;
    NothingStored(before, first, count, stack);
    for index := 0 to count
      invariant space.Valid() && space.Around() == old(space.Around())
      invariant Stored(space.memory.bytes, first, index, stack)
      invariant SameElsewhere(before, space.memory.bytes, first, count)
    {
      assert Within(base + index, base, base + count);
      PageInFrames(space.tree, base + index);
      StoredOne(before, space.memory.bytes, first, index, count, stack);
      space.WriteFrame(first + index, Chunk(stack, index));
    }
  }

  lemma NothingStored(bytes: map<nat, Bytes>, first: nat, count: nat, stack: Bytes)
    ensures Stored(bytes, first, 0, stack) && SameElsewhere(bytes, bytes, first, count)
  {
  }

  lemma StoredIsShown(pages: Pages, bytes: map<nat, Bytes>, base: nat, first: nat, count: nat, stack: Bytes)
    requires Contiguous(pages, base, first, count) && StackPages(pages, base, count)
    requires Stored(bytes, first, count, stack) && |stack| == count * PAGE_SIZE
    ensures StackShown(ImageOf(pages, bytes), base, count, stack)
  {
    hide Chunk;
    forall page: nat | Within(page, base, base + count) ensures PageShown(ImageOf(pages, bytes), base, page, stack) {
      assert Within(first + (page - base), first, first + count);
    }
  }

  /** `prepare_initial_stack_bytes` on a mapped stack: the block is built in the frames, whatever
      they held before. */
  method PrepareStack(space: UserAddressSpace, slot: nat, stack: AllocatedStack, arguments: seq<Bytes>, environment: seq<Bytes>)
      returns (r: Outcome<PreparedStack>)
    requires space.Valid() && slot < STACK_SLOTS && FitsSlot(stack.pages) && stack.base == SlotPage(slot)
    requires Contiguous(space.tree.pages, stack.base, stack.frame, stack.pages)
    requires StackPages(space.tree.pages, stack.base, stack.pages)
    requires Passable(arguments, environment)
    modifies space.memory`bytes
    ensures r.Panic? <==> !BlockFits(slot, stack.pages, arguments, environment)
    ensures r.Panic? ==> r.reason == StackOverflow
    ensures r.Done? ==> space.Valid() && space.Around() == old(space.Around())
    ensures r.Done? ==> SameElsewhere(old(space.memory.bytes), space.memory.bytes, stack.frame, stack.pages)
    ensures r.Done? ==> Enters(r.value, SlotBase(slot), stack.pages * PAGE_SIZE, arguments, environment)
    ensures r.Done? ==>
              ArgumentsShown(ImageOf(space.tree.pages, space.memory.bytes), slot, stack.pages, r.value,
                             StagingOf(arguments, environment))
  {
    hide UserAddressSpace.Valid, UserAddressSpace.Around, NulFree, FinalPointer, Contiguous;
    hide StackPages, Enters, ReadsBack, StackShown, ImageOf, Stored;
    var bytes := new Byte[stack.pages * PAGE_SIZE];
    var prepared :- PrepareReadable(SlotBase(slot), bytes, arguments, environment);
    StoreStack(space, stack.base, stack.frame, stack.pages, bytes[..]);
    StoredIsShown(space.tree.pages, space.memory.bytes, stack.base, stack.frame, stack.pages, bytes[..]);
    return Done(prepared);
  }

  /** What the stack builder asserts of the vectors. */
  predicate Passable(arguments: seq<Bytes>, environment: seq<Bytes>) {
    && |arguments| <= MAX_ENTRIES && |environment| <= MAX_ENTRIES && NulFree(arguments) && NulFree(environment)
    && StringBytes(arguments) + StringBytes(environment) <= MAX_STRING_BYTES
  }

  predicate BlockFits(slot: nat, pages: nat, arguments: seq<Bytes>, environment: seq<Bytes>) {
    SlotBase(slot) <= FinalPointer(SlotBase(slot) + pages * PAGE_SIZE, arguments, environment)
  }

  function StagingOf(arguments: seq<Bytes>, environment: seq<Bytes>): Staging {
    Staging(arguments, environment, StringBytes(arguments) + StringBytes(environment))
  }

  /** On the four pages of `execve` every block fits. */
  lemma FourPagesFit(slot: nat, arguments: seq<Bytes>, environment: seq<Bytes>)
    requires Passable(arguments, environment)
    ensures BlockFits(slot, EXECVE_STACK_PAGES, arguments, environment)
  {
    RoomFor(SlotBase(slot), arguments, environment);
  }
}
