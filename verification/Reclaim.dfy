/** Destroying a user address space: the four-level walk that gives every frame back. */
module Reclaim {
  import opened Machine
  import opened RangeMaps
  import opened FrameTable
  import opened FrameMap
  import opened FrameAllocator
  import opened PageTree
  import opened PageTreeCut
  import opened AddressSpace
  import opened CanonicalRanges

  /** Pages given back so far. */
  datatype Reclaimed = Reclaimed(userPages: nat, tablePages: nat)

  /** What was counted is what disappeared from the tree. */
  ghost predicate Counted(before: Tree, after: Tree, reclaimed: Reclaimed) {
    && |before.pages| == |after.pages| + reclaimed.userPages
    && |before.tables| == |after.tables| + reclaimed.tablePages
  }

  method FreeUserDataFrame(pool: PhysicalFrameAllocator, frame: nat) returns (r: Outcome<()>)
    requires pool.Valid() && frame in pool.View()
    requires pool.View()[frame].state == Used && UserOwner(pool.View()[frame].owner)
    modifies pool`count, pool.tracked
    ensures r.Panic? ==> r.reason == TrackingCapacityExhausted && pool.Exhausted(r.reason)
    ensures r.Done? ==> pool.Valid() && pool.View() == old(pool.View())[frame := FREE]
  {
    var freed :- pool.FreeFrameFor(frame, UserElf);
    if !freed {
      freed :- pool.FreeFrameFor(frame, UserStack);
    }
    if !freed {
      freed :- pool.FreeFrameFor(frame, UserHeap);
    }
    if !freed {
      freed :- pool.FreeFrameFor(frame, UserMapping);
    }
    assert freed;
    return Done(());
  }

  /** Clear and free one mapped page of a level-1 table. */
  method ReclaimPage(space: UserAddressSpace, leaf: nat, index: nat, ghost page: nat) returns (r: Outcome<()>)
    requires space.Valid() && page in space.tree.pages && index == page % ENTRIES
    requires leaf == space.tree.tables[Key(1, page / ENTRIES)]
    modifies space, space.memory`tables, space.pool`count, space.pool.tracked
    ensures r.Panic? ==> r.reason == TrackingCapacityExhausted && space.pool.Exhausted(r.reason)
    ensures r.Done? ==> space.Valid() && space.Around() == old(space.Around())
    ensures r.Done? ==> space.tree == WithoutPage(old(space.tree), page)
  {
    ghost var before, mem, view := space.tree, space.memory.tables, space.pool.View();
    var frame := space.ClearLeafEntry(leaf, index, page);
    var _ :- FreeUserDataFrame(space.pool, frame);
    ReleasedFree(view, FramesOf(before));
    KeptSame(mem, space.memory.tables, space.Base(), FramesOf(before));
    return Done(());
  }

  lemma WithoutPageSize(tree: Tree, page: nat)
    requires page in tree.pages
    ensures |WithoutPage(tree, page).pages| == |tree.pages| - 1
    ensures WithoutPage(tree, page).tables == tree.tables
  {
    assert WithoutPage(tree, page).pages.Keys == tree.pages.Keys - {page};
    assert |tree.pages.Keys| == |WithoutPage(tree, page).pages.Keys| + 1;
  }

  lemma WithoutTableSize(tree: Tree, key: Key)
    requires key in tree.tables
    ensures |WithoutTable(tree, key).tables| == |tree.tables| - 1
    ensures WithoutTable(tree, key).pages == tree.pages
  {
    assert WithoutTable(tree, key).tables.Keys == tree.tables.Keys - {key};
    assert |tree.tables.Keys| == |WithoutTable(tree, key).tables.Keys| + 1;
  }

  method ReclaimLeafTable(space: UserAddressSpace, table: nat, ghost key: Key) returns (r: Outcome<Reclaimed>)
    requires space.Valid() && key in space.tree.tables && key.level == 1 && table == space.tree.tables[key]
    modifies space, space.memory`tables, space.pool`count, space.pool.tracked
    ensures r.Panic? ==> r.reason == TrackingCapacityExhausted && space.pool.Exhausted(r.reason)
    ensures r.Done? ==> space.Valid() && space.Around() == old(space.Around())
    ensures r.Done? ==> space.tree == Cut(old(space.tree), 0, ENTRIES * key.prefix, ENTRIES * key.prefix + ENTRIES)
    ensures r.Done? ==> Counted(old(space.tree), space.tree, r.value)
    decreases 1, 0
  {
    hide UserAddressSpace.Valid, UserAddressSpace.Around, Cut, Closed, WithoutPage;
    ghost var before, first := space.tree, ENTRIES * key.prefix;
    var count := 0;
    CutNothing(before, 0, first);
    for index := 0 to ENTRIES
      invariant space.Valid() && space.Around() == old(space.Around())
      invariant space.tree == Cut(before, 0, first, first + index)
      invariant key in space.tree.tables && table == space.tree.tables[key]
      invariant Counted(before, space.tree, Reclaimed(count, 0))
    {
      ghost var page, now := first + index, space.tree;
      CutJoins(before, 0, first, page, page + 1);
      CutKeeps(before, 0, first, page + 1, key);
      space.RootInTree();
      CutPage(now, page);
      PageSlot(page, key.prefix, index);
      var found := space.ReadPage(table, key, index);
      if found.None? {
        WithoutUnmapped(now, page);
      } else {
        WithoutPageSize(now, page);
        var _ :- ReclaimPage(space, table, index, page);
        count := count + 1;
      }
    }
    return Done(Reclaimed(count, 0));
  }

  /** Give back everything below entry `index` of a table and the child table itself. */
  method ReclaimChild(space: UserAddressSpace, table: nat, ghost key: Key, level: nat, index: nat)
      returns (r: Outcome<Reclaimed>)
    requires space.Valid() && key in space.tree.tables && table == space.tree.tables[key]
    requires key.level == level && 2 <= level && InWindow(key, index)
    modifies space, space.memory`tables, space.pool`count, space.pool.tracked
    ensures r.Panic? ==> r.reason == TrackingCapacityExhausted && space.pool.Exhausted(r.reason)
    ensures r.Done? ==> space.Valid() && space.Around() == old(space.Around())
    ensures r.Done? ==>
              space.tree == Cut(old(space.tree), level - 1, Child(key, index).prefix, Child(key, index).prefix + 1)
    ensures r.Done? ==> Counted(old(space.tree), space.tree, r.value)
    decreases level, 0
  {
    hide UserAddressSpace.Valid, UserAddressSpace.Around, Cut, Childless, Closed, WithoutTable;
    space.RootInTree();
    ghost var before, child := space.tree, Child(key, index);
    var found := space.ReadChild(table, key, index);
    if found.None? {
      CutMissing(before, level - 1, child.prefix);
      return Done(Reclaimed(0, 0));
    }
    CutChildless(before, level - 1, child.prefix);
    CutStep(before, level - 1, child.prefix);
    CutKeeps(before, level - 2, ENTRIES * child.prefix, ENTRIES * child.prefix + ENTRIES, key);
    CutKeeps(before, level - 2, ENTRIES * child.prefix, ENTRIES * child.prefix + ENTRIES, child);
    var inner;
    if level == 2 {
      inner :- ReclaimLeafTable(space, found.value, child);
    } else {
      inner :- ReclaimTable(space, found.value, child, level - 1);
    }
    WithoutTableSize(space.tree, child);
    var _ :- DetachTable(space, table, key, index);
    return Done(inner.(tablePages := inner.tablePages + 1));
  }

  /** Zero a childless table, clear the entry that leads to it, and free its frame. */
  method DetachTable(space: UserAddressSpace, table: nat, ghost key: Key, index: nat) returns (r: Outcome<()>)
    requires space.Valid() && key in space.tree.tables && table == space.tree.tables[key]
    requires 2 <= key.level && InWindow(key, index)
    requires Child(key, index) in space.tree.tables && Childless(space.tree, Child(key, index))
    modifies space, space.memory`tables, space.pool`count, space.pool.tracked
    ensures r.Panic? ==> r.reason == TrackingCapacityExhausted && space.pool.Exhausted(r.reason)
    ensures r.Done? ==> space.Valid() && space.Around() == old(space.Around())
    ensures r.Done? ==> space.tree == WithoutTable(old(space.tree), Child(key, index))
  {
    hide Kept, Canonical, TableOk, Distinct, FramesOf, Released, KernelKept;
    ghost var before, mem, view := space.tree, space.memory.tables, space.pool.View();
    var entry := space.ReadEntry(table, key, index);
    var frame := entry.frame;
    ghost var child := Child(key, index);
    space.memory.tables := space.memory.tables[frame := ZERO_TABLE];
    space.memory.tables := space.memory.tables[table := space.memory.tables[table][index := Unused]];
    space.tree := WithoutTable(before, child);
    TableRemoved(before, mem, key, index);
    KernelDetached(before, mem, space.kernel, key, index);
    OwnedWithoutTable(before, view, child, FREE);
    TableFramesShrink(before, child);
    TableInFrames(before, child);
    TableInFrames(before, key);
    ReleasedShrinks(view, FramesOf(before), frame);
    var freed :- space.pool.FreeFrameFor(frame, PageTable);
    assert freed;
    ReleasedFree(view, FramesOf(before));
    KeptSame(mem, space.memory.tables, space.Base(), FramesOf(before));
    return Done(());
  }

  method ReclaimTable(space: UserAddressSpace, table: nat, ghost key: Key, level: nat) returns (r: Outcome<Reclaimed>)
    requires space.Valid() && key in space.tree.tables && table == space.tree.tables[key]
    requires key.level == level && 2 <= level <= 3
    modifies space, space.memory`tables, space.pool`count, space.pool.tracked
    ensures r.Panic? ==> r.reason == TrackingCapacityExhausted && space.pool.Exhausted(r.reason)
    ensures r.Done? ==> space.Valid() && space.Around() == old(space.Around())
    ensures r.Done? ==>
              space.tree == Cut(old(space.tree), level - 1, ENTRIES * key.prefix, ENTRIES * key.prefix + ENTRIES)
    ensures r.Done? ==> Counted(old(space.tree), space.tree, r.value)
    decreases level, 1
  {
    hide UserAddressSpace.Valid, UserAddressSpace.Around, Cut;
    ghost var before, first := space.tree, ENTRIES * key.prefix;
    var total := Reclaimed(0, 0);
    CutNothing(before, level - 1, first);
    for index := 0 to ENTRIES
      invariant space.Valid() && space.Around() == old(space.Around())
      invariant space.tree == Cut(before, level - 1, first, first + index)
      invariant key in space.tree.tables && table == space.tree.tables[key]
      invariant Counted(before, space.tree, total)
    {
      CutJoins(before, level - 1, first, first + index, first + index + 1);
      CutKeeps(before, level - 1, first, first + index + 1, key);
      var part :- ReclaimChild(space, table, key, level, index);
      total := Reclaimed(total.userPages + part.userPages, total.tablePages + part.tablePages);
    }
    return Done(total);
  }

  /** Destroy the space: the pool is left exactly as the space's base, and the counts are its
      mapped pages and its tables, the root included. */
  method DestroyUserAddressSpace(space: UserAddressSpace) returns (r: Outcome<Reclaimed>)
    requires space.Valid()
    modifies space, space.memory`tables, space.pool`count, space.pool.tracked
    ensures r.Panic? ==> r.reason == TrackingCapacityExhausted && space.pool.Exhausted(r.reason)
    ensures r.Done? ==>
              space.pool.Valid() && Surrounding(space.pool.View(), space.memory.tables, space.memory.bytes) == old(space.Around())
    ensures r.Done? ==> r.value == Reclaimed(|old(space.tree.pages)|, |old(space.tree.tables)|)
  {
    hide UserAddressSpace.Valid, UserAddressSpace.Around, Cut, Closed;
    ghost var before := space.tree;
    space.RootInTree();
    var total := Reclaimed(0, 0);
    CutNothing(before, 3, WINDOW_START);
    for index := WINDOW_START to WINDOW_END
      invariant space.Valid() && space.Around() == old(space.Around())
      invariant space.tree == Cut(before, 3, WINDOW_START, index)
      invariant Counted(before, space.tree, total)
    {
      CutJoins(before, 3, WINDOW_START, index, index + 1);
      space.RootInTree();
      var part :- ReclaimChild(space, space.root, ROOT_KEY, 4, index);
      total := Reclaimed(total.userPages + part.userPages, total.tablePages + part.tablePages);
    }
    CutWindow(before);
    assert space.tree == RootOnly(space.root);
    var _ :- FreeRoot(space);
    return Done(total.(tablePages := total.tablePages + 1));
  }

  method FreeRoot(space: UserAddressSpace) returns (r: Outcome<()>)
    requires space.Valid() && space.tree == RootOnly(space.root)
    modifies space.memory`tables, space.pool`count, space.pool.tracked
    ensures r.Panic? ==> r.reason == TrackingCapacityExhausted && space.pool.Exhausted(r.reason)
    ensures r.Done? ==>
              space.pool.Valid() && Surrounding(space.pool.View(), space.memory.tables, space.memory.bytes) == old(space.Around())
  {
    ghost var mem, view := space.memory.tables, space.pool.View();
    RootFrames(space.root);
    space.memory.tables := space.memory.tables[space.root := ZERO_TABLE];
    ReleasedShrinks(view, {space.root}, space.root);
    ReleasedNothing(view[space.root := FREE]);
    assert {space.root} - {space.root} == {};
    var freed :- space.pool.FreeFrameFor(space.root, PageTable);
    assert freed;
    KeptSame(mem, space.memory.tables, space.pool.View(), {space.root});
    return Done(());
  }
}
