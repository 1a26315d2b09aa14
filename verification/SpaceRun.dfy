/** The life of one address space under arbitrary page mappings and unmappings. */
module SpaceRuns {
  import opened Machine
  import opened FrameTable
  import opened FrameMap
  import opened FrameAllocator
  import opened PageTree
  import opened AddressSpace
  import opened Reclaim

  datatype PageOp = MapPage(page: nat, flags: set<Flag>, owner: FrameOwner) | UnmapPage(page: nat, owner: FrameOwner)

  type Owners = map<nat, FrameOwner>

  function Step(owners: Owners, op: PageOp): Owners {
    match op
    case MapPage(page, _, owner) => owners[page := owner]
    case UnmapPage(page, _) => owners - {page}
  }

  /** Who owns each mapped page after the operations. */
  function PagesAfter(ops: seq<PageOp>): Owners {
    if ops == [] then map[] else Step(PagesAfter(ops[..|ops| - 1]), ops[|ops| - 1])
  }

  /** The root and every table on the way to a page that was ever mapped. */
  function TablesAfter(ops: seq<PageOp>): set<Key> {
    if ops == [] then {ROOT_KEY}
    else TablesAfter(ops[..|ops| - 1]) + (if ops[|ops| - 1].MapPage? then WalkTables(ops[|ops| - 1].page) else {})
  }

  /** Operations stay in the window, map with a user owner, and unmap with the owner they mapped with. */
  ghost predicate Permitted(ops: seq<PageOp>) {
    forall i :: 0 <= i < |ops| ==> PermittedAfter(PagesAfter(ops[..i]), ops[i])
  }

  ghost predicate PermittedAfter(owners: Owners, op: PageOp) {
    && UserPage(op.page) && UserOwner(op.owner)
    && (op.UnmapPage? && op.page in owners ==> owners[op.page] == op.owner)
  }

  ghost predicate Matches(pages: map<nat, Mapping>, owners: Owners) {
    && pages.Keys == owners.Keys
    && (forall page :: page in pages ==> pages[page].owner == owners[page])
  }

  method Apply(space: UserAddressSpace, op: PageOp, ghost owners: Owners) returns (r: Outcome<()>)
    requires space.Valid() && Matches(space.tree.pages, owners) && PermittedAfter(owners, op)
    modifies space, space.memory, space.pool`count, space.pool.tracked
    ensures r.Panic? ==> r.reason == PageAlreadyMapped || space.pool.Exhausted(r.reason)
    ensures r == Panic(PageAlreadyMapped) ==> op.MapPage? && op.page in owners
    ensures r.Done? ==> space.Valid() && space.Around() == old(space.Around())
    ensures r.Done? ==> Matches(space.tree.pages, Step(owners, op))
    ensures r.Done? ==>
              space.tree.tables.Keys == old(space.tree.tables.Keys) + (if op.MapPage? then WalkTables(op.page) else {})
  {
    hide UserAddressSpace.Valid, UserAddressSpace.Around, WalkTables;
    match op {
      case MapPage(page, flags, owner) =>
        var taken :- space.MapFreshPage(page, flags, owner, Some(ZeroPage()));
        if taken.NoFrame? {
          return Panic(OutOfFrames);
        }
      case UnmapPage(page, owner) =>
        var _ :- space.UnmapUserPageFor(page, owner);
    }
    return Done(());
  }

  /** Create a space, map and unmap pages in any order, destroy it: the frame map is as before, and
      the counts are the pages still mapped and the tables ever needed. */
  method CreateRunDestroy(memory: PhysicalMemory, pool: PhysicalFrameAllocator, active: seq<Entry>, ops: seq<PageOp>)
      returns (r: Outcome<Reclaimed>)
    requires pool.Valid() && |active| == ENTRIES && Permitted(ops)
    modifies memory, pool`count, pool.tracked
    ensures r.Panic? ==> r.reason == PageAlreadyMapped || pool.Exhausted(r.reason)
    ensures r == Panic(PageAlreadyMapped) ==>
              exists i :: 0 <= i < |ops| && ops[i].MapPage? && ops[i].page in PagesAfter(ops[..i])
    ensures r.Done? ==> pool.Valid() && pool.View() == old(pool.View())
    ensures r.Done? ==>
              Surrounding(pool.View(), memory.tables, memory.bytes) == old(Surrounding(pool.View(), memory.tables, memory.bytes))
    ensures r.Done? ==> r.value == Reclaimed(|PagesAfter(ops)|, |TablesAfter(ops)|)
  {
    hide UserAddressSpace.Valid, UserAddressSpace.Around, WalkTables, EmptyWindow, Kept;
    var space :- UserAddressSpace.Create(memory, pool, active);
    ghost var around := space.Around();
    for index: nat := 0 to |ops|
      invariant space.Valid() && space.Around() == around && space.memory == memory && space.pool == pool
      invariant Matches(space.tree.pages, PagesAfter(ops[..index]))
      invariant space.tree.tables.Keys == TablesAfter(ops[..index])
    {
      assert ops[..index + 1][..index] == ops[..index];
      var _ :- Apply(space, ops[index], PagesAfter(ops[..index]));
    }
    assert ops[..|ops|] == ops;
    SizeOfKeys(space.tree.pages);
    SizeOfKeys(space.tree.tables);
    SizeOfKeys(PagesAfter(ops));
    r := DestroyUserAddressSpace(space);
  }

  lemma SizeOfKeys<K, V>(m: map<K, V>)
    ensures |m| == |m.Keys|
  {
  }
}
