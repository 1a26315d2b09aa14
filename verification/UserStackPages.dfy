/** Slot-based user stacks: contiguous frames mapped at a fixed place per slot. */
module UserStackPages {
  import opened Machine
  import opened RangeMaps
  import opened FrameTable
  import opened FrameMap
  import opened PageTree
  import opened AddressSpace
  import opened UserMappings

  const STACK_SLOT_PAGES: nat := 256
  const STACK_SLOTS: nat := 256

  const STACK_FLAGS: set<Flag> := {Writable, UserAccessible, NoExecute}

  /** A mapped stack: its first page, its first frame, and its length in pages. */
  datatype AllocatedStack = AllocatedStack(base: nat, frame: nat, pages: nat)

  function SlotPage(slot: nat): nat {
    STACK_REGION_PAGE + slot * STACK_SLOT_PAGES
  }

  /** The stack fits its slot below a guard page. */
  predicate FitsSlot(pages: nat) {
    0 < pages && pages * PAGE_SIZE < STACK_SLOT_PAGES * PAGE_SIZE - PAGE_SIZE
  }

  /** Page base + i is mapped to frame + i. */
  ghost predicate Contiguous(pages: Pages, base: nat, frame: nat, count: nat) {
    forall page: nat :: Within(page, base, base + count) ==> page in pages && pages[page].frame == frame + (page - base)
  }

  /** Pages [base, base + count) are data pages of the stack. */
  ghost predicate StackPages(pages: Pages, base: nat, count: nat) {
    forall page: nat :: Within(page, base, base + count) ==>
      page in pages && pages[page].owner == UserStack && DataPage(pages[page])
  }

  lemma AddedStack(before: Pages, after: Pages, base: nat, count: nat)
    requires Added(before, after, base, base + count, STACK_FLAGS, UserStack)
    ensures StackPages(after, base, count)
  {
  }

  /** A stack may take all of its slot but two pages. */
  lemma FitsSlotExact(pages: nat)
    ensures FitsSlot(pages) <==> 1 <= pages <= 254
  {
  }

  /** Stacks in different slots keep apart, with at least a page between them, and inside the window. */
  lemma SlotsApart(low: nat, high: nat, pages: nat)
    requires low < high < STACK_SLOTS && FitsSlot(pages)
    ensures SlotPage(low) + pages + 1 <= SlotPage(high)
    ensures 0x7_ffff_0000 <= SlotPage(low) && SlotPage(high) + pages < 0x8_0000_0000
  {
  }

  lemma ContiguousOne(now: Pages, after: Pages, base: nat, frame: nat, index: nat)
    requires Contiguous(now, base, frame, index)
    requires after == now[base + index := Mapping(frame + index, STACK_FLAGS, UserStack)]
    ensures Contiguous(after, base, frame, index + 1)
  {
  }

  /** Frames [start + index, start + count) are still taken, the earlier ones free again. */
  ghost function Taken(base: Frames, start: nat, count: nat, index: nat): Frames
    requires index <= count
  {
    Painted(base, start + index, count - index, Info(Used, UserStack))
  }

  lemma TakenOne(base: Frames, start: nat, count: nat, index: nat)
    requires index < count && AllHave(base, start, count, FREE)
    ensures start + index in Taken(base, start, count, index)
    ensures Taken(base, start, count, index)[start + index] == Info(Used, UserStack)
    ensures Taken(base, start, count, index)[start + index := FREE] == Taken(base, start, count, index + 1)
  {
    hide Taken, AllHave;
    var now, next := Taken(base, start, count, index), Taken(base, start, count, index + 1);
    FirstIsFree(base, start, count, index);
    TakenAt(base, start, count, index, start + index);
    TakenAt(base, start, count, index + 1, start + index);
    forall frame: nat | frame != start + index
      ensures frame in now <==> frame in next
      ensures frame in now ==> now[frame] == next[frame]
    {
      TakenAt(base, start, count, index, frame);
      TakenAt(base, start, count, index + 1, frame);
    }
    SameMap(now[start + index := FREE], next);
  }

  lemma FirstIsFree(base: Frames, start: nat, count: nat, index: nat)
    requires index < count && AllHave(base, start, count, FREE)
    ensures start + index in base && base[start + index] == FREE
  {
    assert InRange(start + index, start, count);
  }

  lemma TakenAt(base: Frames, start: nat, count: nat, index: nat, frame: nat)
    requires index <= count
    ensures frame in Taken(base, start, count, index) <==> frame in base || start + index <= frame < start + count
    ensures start + index <= frame < start + count ==>
              Taken(base, start, count, index)[frame] == Info(Used, UserStack)
    ensures frame in base && !(start + index <= frame < start + count) ==>
              Taken(base, start, count, index)[frame] == base[frame]
  {
    PaintedAt(base, start + index, count - index, Info(Used, UserStack), frame);
  }

  /** Frames that are free while the rest of the stack is still taken were free to begin with. */
  lemma TakenKept(base: Frames, start: nat, count: nat, index: nat, mem: Tables, after: Tables, frames: set<nat>)
    requires index <= count && AllHave(base, start, count, FREE) && SameOutside(mem, after, frames)
    requires forall frame :: frame in frames && frame in Taken(base, start, count, index) ==>
               Taken(base, start, count, index)[frame] == FREE
    ensures Kept(mem, base) == Kept(after, base)
  {
    hide Taken, Kept, SameOutside;
    forall frame | frame in frames && frame in base ensures base[frame] == FREE {
      TakenAt(base, start, count, index, frame);
    }
    KeptSame(mem, after, base, frames);
  }

  lemma TakenAll(base: Frames, start: nat, count: nat)
    ensures Taken(base, start, count, count) == base
  {
    forall frame: nat
      ensures frame in Taken(base, start, count, count) <==> frame in base
      ensures frame in base ==> Taken(base, start, count, count)[frame] == base[frame]
    {
      PaintedAt(base, start + count, 0, Info(Used, UserStack), frame);
    }
    SameMap(Taken(base, start, count, count), base);
  }

  lemma SlotIsUser(slot: nat, count: nat)
    requires slot < STACK_SLOTS && FitsSlot(count)
    ensures forall page: nat :: Within(page, SlotPage(slot), SlotPage(slot) + count) ==> UserPage(page)
  {
    forall page: nat | Within(page, SlotPage(slot), SlotPage(slot) + count) ensures UserPage(page) {
      UserPageBounds(page);
    }
  }

  /** Allocate contiguous frames and map them as the stack of `slot`. */
  method AllocateUserStack(space: UserAddressSpace, slot: nat, count: nat) returns (r: Outcome<AllocatedStack>)
    requires space.Valid() && slot < STACK_SLOTS && FitsSlot(count)
    requires Unmapped(space.tree.pages, SlotPage(slot), SlotPage(slot) + count)
    modifies space, space.memory`tables, space.pool`count, space.pool.tracked
    ensures r.Panic? ==> space.pool.Exhausted(r.reason)
    ensures r.Done? ==> space.Valid() && space.Around() == old(space.Around())
    ensures r.Done? ==> r.value.base == SlotPage(slot) && r.value.pages == count
    ensures r.Done? ==>
              && Added(old(space.tree.pages), space.tree.pages, r.value.base, r.value.base + count, STACK_FLAGS, UserStack)
              && Contiguous(space.tree.pages, r.value.base, r.value.frame, count)
              && StackPages(space.tree.pages, r.value.base, count)
  {
    hide UserAddressSpace.Valid, UserAddressSpace.Base, UserAddressSpace.Spare;
    hide Taken, Added, Contiguous, Kept, SameOutside, StackPages;
    ghost var base, before, mem := space.Base(), space.tree.pages, space.memory.tables;
    var found :- space.TakeFrames(count, UserStack);
    if found.None? {
      return Panic(NoFrameRun(count));
    }
    var first, start := found.value, SlotPage(slot);
    SlotIsUser(slot, count);
    StackBegins(base, before, first, count, start);
    for index := 0 to count
      invariant space.Valid() && space.Base() == Taken(base, first, count, index)
      invariant Added(before, space.tree.pages, start, start + index, STACK_FLAGS, UserStack)
      invariant Contiguous(space.tree.pages, start, first, index)
      invariant Kept(mem, base) == Kept(space.memory.tables, base)
    {
      ghost var now := space.memory.tables;
      TakenOne(base, first, count, index);
      space.SpareFromBase(first + index, UserStack);
      assert Within(start + index, start, start + count);
      var _ :- MapStackPage(space, before, start, first, index);
      space.TreeFramesFree();
      TakenKept(base, first, count, index + 1, now, space.memory.tables, FramesOf(space.tree));
    }
    TakenAll(base, first, count);
    AddedStack(before, space.tree.pages, start, count);
    return Done(AllocatedStack(start, first, count));
  }

  lemma StackBegins(base: Frames, pages: Pages, first: nat, count: nat, start: nat)
    ensures Painted(base, first, count, Info(Used, UserStack)) == Taken(base, first, count, 0)
    ensures Added(pages, pages, start, start, STACK_FLAGS, UserStack)
    ensures Contiguous(pages, start, first, 0)
  {
  }

  method MapStackPage(space: UserAddressSpace, ghost before: Pages, start: nat, first: nat, index: nat) returns (r: Outcome<()>)
    requires space.Valid() && UserPage(start + index) && space.Spare(first + index, UserStack)
    requires Added(before, space.tree.pages, start, start + index, STACK_FLAGS, UserStack) && start + index !in before
    requires Contiguous(space.tree.pages, start, first, index)
    modifies space, space.memory`tables, space.pool`count, space.pool.tracked
    ensures r.Panic? ==> space.pool.Exhausted(r.reason)
    ensures r.Done? ==> space.Valid() && space.Base() == old(space.Base())[first + index := FREE]
    ensures r.Done? ==> SameOutside(old(space.memory.tables), space.memory.tables, FramesOf(space.tree))
    ensures r.Done? ==> Added(before, space.tree.pages, start, start + index + 1, STACK_FLAGS, UserStack)
    ensures r.Done? ==> Contiguous(space.tree.pages, start, first, index + 1)
  {
    hide UserAddressSpace.Valid, UserAddressSpace.Base, UserAddressSpace.Spare;
    ghost var now := space.tree.pages;
    assert start + index !in now;
    var _ :- space.MapUserPage(start + index, first + index, STACK_FLAGS, UserStack);
    AddedOne(before, now, space.tree.pages, start, start + index, first + index, STACK_FLAGS, UserStack);
    ContiguousOne(now, space.tree.pages, start, first, index);
    return Done(());
  }
}
