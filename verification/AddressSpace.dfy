/** User address spaces: page tables in frames of the physical allocator, mapped and unmapped
    page by page and reclaimed as a whole. */
module AddressSpace {
  import opened Machine
  import opened RangeMaps
  import opened FrameTable
  import opened FrameMap
  import opened FrameAllocator
  import opened PageTree
  import opened PageTreeCut
  import opened LittleEndian
  import opened CanonicalRanges

  predicate UserOwner(owner: FrameOwner) {
    owner == UserElf || owner == UserStack || owner == UserHeap || owner == UserMapping
  }

  const TABLE_INFO := Info(Used, PageTable)

  /** Every frame of the tree is recorded with the right owner. */
  ghost predicate Owned(tree: Tree, view: Frames) {
    && (forall key :: key in tree.tables ==> tree.tables[key] in view && view[tree.tables[key]] == TABLE_INFO)
    && (forall page :: page in tree.pages ==> PageOwned(view, tree.pages[page]))
  }

  ghost predicate PageOwned(view: Frames, mapping: Mapping) {
    mapping.frame in view && view[mapping.frame] == Info(Used, mapping.owner) && UserOwner(mapping.owner)
  }

  /** The frame map once all of `frames` have been given back. */
  ghost function Released(view: Frames, frames: set<nat>): Frames {
    map frame | frame in view :: if frame in frames then FREE else view[frame]
  }

  ghost predicate SameOutside<V>(before: map<nat, V>, after: map<nat, V>, frames: set<nat>) {
    forall frame: nat :: frame !in frames ==>
      (frame in before <==> frame in after) && (frame in before ==> after[frame] == before[frame])
  }

  /** What lies around an address space: the frame map without the space, and the contents of
      the frames that others hold, as page tables and as bytes. */
  datatype Surroundings = Surroundings(frames: Frames, tables: Tables, bytes: map<nat, Bytes>)

  ghost function Surrounding(frames: Frames, tables: Tables, bytes: map<nat, Bytes>): Surroundings {
    Surroundings(frames, Kept(tables, frames), Kept(bytes, frames))
  }

  ghost function Kept<V>(contents: map<nat, V>, frames: Frames): map<nat, V> {
    map frame | frame in contents && frame in frames && frames[frame] != FREE :: contents[frame]
  }

  /** Writing only to frames that nobody else holds keeps the surroundings. */
  lemma KeptSame<V>(before: map<nat, V>, after: map<nat, V>, base: Frames, frames: set<nat>)
    requires SameOutside(before, after, frames)
    requires forall frame :: frame in frames && frame in base ==> base[frame] == FREE
    ensures Kept(before, base) == Kept(after, base)
  {
  }

  lemma KeptUpdate<V>(contents: map<nat, V>, base: Frames, frame: nat, value: V)
    requires frame in base ==> base[frame] == FREE
    ensures Kept(contents[frame := value], base) == Kept(contents, base)
  {
  }

  // ---------------------------------------------------------------- program image and stack

  predicate ImageOwner(owner: FrameOwner) {
    owner == UserElf || owner == UserStack
  }

  /** A page of the program image or the stack: where it is mapped and what its frame holds. */
  datatype PageImage = PageImage(mapping: Mapping, content: Option<Bytes>)

  ghost function ImageOf(pages: map<nat, Mapping>, bytes: map<nat, Bytes>): map<nat, PageImage> {
    map page | page in pages && ImageOwner(pages[page].owner) ::
      PageImage(pages[page], if pages[page].frame in bytes then Some(bytes[pages[page].frame]) else None)
  }

  lemma ImageUntouched(tree: Tree, bytes: map<nat, Bytes>, frame: nat, content: Bytes)
    requires frame !in FramesOf(tree)
    ensures ImageOf(tree.pages, bytes[frame := content]) == ImageOf(tree.pages, bytes)
  {
    forall page | page in tree.pages ensures tree.pages[page].frame != frame {
      PageInFrames(tree, page);
    }
  }

  lemma ImageMapped(pages: map<nat, Mapping>, bytes: map<nat, Bytes>, page: nat, mapping: Mapping)
    requires page !in pages && !ImageOwner(mapping.owner)
    ensures ImageOf(pages[page := mapping], bytes) == ImageOf(pages, bytes)
  {
  }

  lemma ImageUnmapped(tree: Tree, bytes: map<nat, Bytes>, page: nat)
    requires page in tree.pages ==> !ImageOwner(tree.pages[page].owner)
    ensures ImageOf(WithoutPage(tree, page).pages, bytes) == ImageOf(tree.pages, bytes)
  {
  }

  lemma ReleasedFree(view: Frames, frames: set<nat>)
    ensures forall frame :: frame in frames && frame in Released(view, frames) ==> Released(view, frames)[frame] == FREE
  {
  }

  // ---------------------------------------------------------------- accounting

  lemma FreeNotInTree(tree: Tree, view: Frames, frame: nat)
    requires Owned(tree, view) && frame in view && view[frame] == FREE
    ensures frame !in FramesOf(tree)
  {
  }

  lemma ReleasedGrows(view: Frames, frames: set<nat>, frame: nat, info: Info)
    requires frame in view && (view[frame] == FREE || frame in frames)
    ensures Released(view[frame := info], frames + {frame}) == Released(view, frames)
  {
  }

  lemma ReleasedShrinks(view: Frames, frames: set<nat>, frame: nat)
    requires frame in view && frame in frames
    ensures Released(view[frame := FREE], frames - {frame}) == Released(view, frames)
  {
  }

  lemma TableFrames(tree: Tree, key: Key, frame: nat)
    requires key !in tree.tables
    ensures FramesOf(WithTable(tree, key, frame)) == FramesOf(tree) + {frame}
  {
    var grown := WithTable(tree, key, frame);
    forall k | k in tree.tables ensures tree.tables[k] in grown.tables.Values {
      assert grown.tables[k] == tree.tables[k];
    }
    assert grown.tables[key] == frame;
  }

  lemma PageFramesGrow(tree: Tree, page: nat, mapping: Mapping)
    requires page !in tree.pages
    ensures FramesOf(WithPage(tree, page, mapping)) == FramesOf(tree) + {mapping.frame}
  {
    var grown := WithPage(tree, page, mapping);
    forall p | p in tree.pages ensures tree.pages[p].frame in PageFrames(grown.pages) {
      assert grown.pages[p] == tree.pages[p];
    }
    assert grown.pages[page] == mapping;
  }

  lemma PageFramesShrink(tree: Tree, page: nat)
    requires Distinct(tree) && page in tree.pages
    ensures FramesOf(WithoutPage(tree, page)) == FramesOf(tree) - {tree.pages[page].frame}
  {
    var shrunk := WithoutPage(tree, page);
    forall p | p in tree.pages && p != page ensures tree.pages[p].frame in PageFrames(shrunk.pages) {
      assert shrunk.pages[p] == tree.pages[p];
    }
  }

  lemma TableFramesShrink(tree: Tree, key: Key)
    requires Distinct(tree) && key in tree.tables
    ensures FramesOf(WithoutTable(tree, key)) == FramesOf(tree) - {tree.tables[key]}
  {
    var shrunk := WithoutTable(tree, key);
    forall k | k in tree.tables && k != key ensures tree.tables[k] in shrunk.tables.Values {
      assert shrunk.tables[k] == tree.tables[k];
    }
  }

  lemma OwnedTable(tree: Tree, view: Frames, key: Key, frame: nat)
    requires Owned(tree, view) && frame !in FramesOf(tree) && key !in tree.tables
    ensures Owned(WithTable(tree, key, frame), view[frame := TABLE_INFO])
  {
    forall k | k in tree.tables ensures tree.tables[k] != frame {
      TableInFrames(tree, k);
    }
    forall p | p in tree.pages ensures tree.pages[p].frame != frame {
      PageInFrames(tree, p);
    }
  }

  lemma OwnedPage(tree: Tree, view: Frames, page: nat, mapping: Mapping)
    requires Owned(tree, view) && PageOwned(view, mapping)
    ensures Owned(WithPage(tree, page, mapping), view)
  {
  }

  lemma OwnedWithoutPage(tree: Tree, view: Frames, page: nat, info: Info)
    requires Owned(tree, view) && Distinct(tree) && page in tree.pages
    ensures Owned(WithoutPage(tree, page), view[tree.pages[page].frame := info])
  {
  }

  lemma OwnedWithoutTable(tree: Tree, view: Frames, key: Key, info: Info)
    requires Owned(tree, view) && Distinct(tree) && key in tree.tables
    ensures Owned(WithoutTable(tree, key), view[tree.tables[key] := info])
  {
  }

  ghost function DataOf(view: Frames): set<(nat, Info)> {
    set frame | frame in view && view[frame] != FREE && view[frame] != TABLE_INFO :: (frame, view[frame])
  }

  ghost function PageData(pages: map<nat, Mapping>): set<(nat, Info)> {
    set page | page in pages :: (pages[page].frame, Info(Used, pages[page].owner))
  }

  lemma DataSplits(tree: Tree, view: Frames)
    requires Owned(tree, view)
    ensures DataOf(view) == DataOf(Released(view, FramesOf(tree))) + PageData(tree.pages)
  {
    var base := Released(view, FramesOf(tree));
    forall d | d in DataOf(view) ensures d in DataOf(base) + PageData(tree.pages) {
      if d.0 in PageFrames(tree.pages) {
        var page :| page in tree.pages && tree.pages[page].frame == d.0;
      } else if d.0 in tree.tables.Values {
        assert false;
      } else {
        assert base[d.0] == view[d.0];
      }
    }
    forall d | d in DataOf(base) ensures d in DataOf(view) {
      assert base[d.0] == view[d.0];
    }
    forall d | d in PageData(tree.pages) ensures d in DataOf(view) {
      var page :| page in tree.pages && d == (tree.pages[page].frame, Info(Used, tree.pages[page].owner));
      assert PageOwned(view, tree.pages[page]);
    }
  }

  predicate EmptyWindow(table: seq<Entry>) {
    |table| == ENTRIES && forall i :: WINDOW_START <= i < WINDOW_END ==> table[i].Unused?
  }

  /** The entries of the top-level table outside the window are those of the kernel. */
  ghost predicate KernelKept(mem: Tables, root: nat, kernel: seq<Entry>) {
    && root in mem && |mem[root]| == |kernel| == ENTRIES
    && forall i :: 0 <= i < ENTRIES && !(WINDOW_START <= i < WINDOW_END) ==> mem[root][i] == kernel[i]
  }

  /** No entry of the window's tables is one of them. */
  lemma KernelUnwritten(tree: Tree, mem: Tables, kernel: seq<Entry>, key: Key, index: nat, entry: Entry)
    requires Distinct(tree) && ROOT_KEY in tree.tables && KernelKept(mem, tree.tables[ROOT_KEY], kernel)
    requires key in tree.tables && tree.tables[key] in mem && index < |mem[tree.tables[key]]| && InWindow(key, index)
    ensures KernelKept(WithEntry(mem, tree.tables[key], index, entry), tree.tables[ROOT_KEY], kernel)
  {
  }

  /** Nor is one in a table that is attached, */
  lemma KernelAttached(tree: Tree, mem: Tables, kernel: seq<Entry>, key: Key, index: nat, entry: Entry, frame: nat)
    requires Distinct(tree) && ROOT_KEY in tree.tables && KernelKept(mem, tree.tables[ROOT_KEY], kernel)
    requires key in tree.tables && tree.tables[key] in mem && index < |mem[tree.tables[key]]| && InWindow(key, index)
    requires frame !in FramesOf(tree)
    ensures KernelKept(WithEntry(mem, tree.tables[key], index, entry)[frame := ZERO_TABLE], tree.tables[ROOT_KEY], kernel)
  {
    KernelUnwritten(tree, mem, kernel, key, index, entry);
    TableInFrames(tree, ROOT_KEY);
  }

  /** or detached. */
  lemma KernelDetached(tree: Tree, mem: Tables, kernel: seq<Entry>, key: Key, index: nat)
    requires Distinct(tree) && ROOT_KEY in tree.tables && KernelKept(mem, tree.tables[ROOT_KEY], kernel)
    requires key in tree.tables && tree.tables[key] in mem && index < |mem[tree.tables[key]]| && InWindow(key, index)
    requires 1 <= key.level <= 4 && Child(key, index) in tree.tables
    ensures KernelKept(WithEntry(mem[tree.tables[Child(key, index)] := ZERO_TABLE], tree.tables[key], index, Unused),
                       tree.tables[ROOT_KEY], kernel)
  {
    KernelUnwritten(tree, mem[tree.tables[Child(key, index)] := ZERO_TABLE], kernel, key, index, Unused);
  }

  function RootOnly(root: nat): Tree {
    Tree(map[ROOT_KEY := root], map[])
  }

  lemma RootTreeOk(root: nat, mem: Tables)
    requires root in mem && EmptyWindow(mem[root])
    ensures TreeOk(RootOnly(root), mem)
  {
    var tree := RootOnly(root);
    forall k {:trigger HasParent(tree, k)} | k in tree.tables ensures HasParent(tree, k) {
    }
    forall k, i {:trigger LinkOk(tree, mem, k, i)} | k in tree.tables && InWindow(k, i) && 1 <= k.level
      ensures LinkOk(tree, mem, k, i)
    {
    }
  }

  lemma RootFrames(root: nat)
    ensures FramesOf(RootOnly(root)) == {root}
  {
    assert RootOnly(root).tables[ROOT_KEY] == root;
  }

  lemma ReleasedNothing(view: Frames)
    ensures Released(view, {}) == view
  {
  }

  // ---------------------------------------------------------------- the address space

  function ZeroPage(): Bytes {
    seq<Byte>(PAGE_SIZE, _ => 0)
  }

  /** The contents of physical frames, reached through the identity mapping: page tables of the
      frames that hold one, bytes of the frames the kernel has filled for user pages. */
  class PhysicalMemory {
    var tables: Tables
    var bytes: map<nat, Bytes>

    constructor (tables: Tables)
      ensures this.tables == tables && bytes == map[]
    {
      this.tables := tables;
      bytes := map[];
    }
  }

  class UserAddressSpace {
    const root: nat
    const memory: PhysicalMemory
    const pool: PhysicalFrameAllocator
    ghost const kernel: seq<Entry>
    ghost var tree: Tree

    ghost predicate Valid()
      reads this, memory, pool, pool.tracked
    {
      && pool.Valid()
      && TreeOk(tree, memory.tables)
      && tree.tables[ROOT_KEY] == root
      && Owned(tree, pool.View())
      && KernelKept(memory.tables, root, kernel)
    }

    /** The frame map this space leaves behind once everything it holds is given back. */
    ghost function Base(): Frames
      requires Valid()
      reads this, memory, pool, pool.tracked
    {
      Released(pool.View(), FramesOf(tree))
    }

    ghost function Around(): Surroundings
      requires Valid()
      reads this, memory, pool, pool.tracked
    {
      Surrounding(Base(), memory.tables, memory.bytes)
    }

    /** What changes to the heap and the mappings leave alone: the surroundings, and the pages of
        the program image and the stack with their contents. */
    ghost function Steady(): (Surroundings, map<nat, PageImage>)
      requires Valid()
      reads this, memory, pool, pool.tracked
    {
      (Around(), ImageOf(tree.pages, memory.bytes))
    }

    constructor (memory: PhysicalMemory, pool: PhysicalFrameAllocator, root: nat, ghost kernel: seq<Entry>)
      requires pool.Valid() && root in pool.View() && pool.View()[root] == TABLE_INFO
      requires root in memory.tables && EmptyWindow(memory.tables[root]) && KernelKept(memory.tables, root, kernel)
      ensures this.memory == memory && this.pool == pool && this.root == root && this.kernel == kernel
      ensures Valid() && tree == RootOnly(root)
    {
      this.memory := memory;
      this.pool := pool;
      this.root := root;
      this.kernel := kernel;
      tree := RootOnly(root);
      new;
      RootTreeOk(root, memory.tables);
    }

    /** The kernel entries of a top-level table, with the user window left empty. */
    static method CopyKernelEntries(active: seq<Entry>) returns (table: seq<Entry>)
      requires |active| == ENTRIES
      ensures |table| == ENTRIES && EmptyWindow(table)
      ensures forall i :: 0 <= i < ENTRIES && !(WINDOW_START <= i < WINDOW_END) ==> table[i] == active[i]
    {
      table := ZERO_TABLE;
      for index := 0 to ENTRIES
        invariant |table| == ENTRIES
        invariant forall i :: 0 <= i < index ==> table[i] == active[i]
      {
        table := table[index := active[index]];
      }
      for index := WINDOW_START to WINDOW_END
        invariant |table| == ENTRIES
        invariant forall i :: WINDOW_START <= i < index ==> table[i].Unused?
        invariant forall i :: 0 <= i < ENTRIES && !(WINDOW_START <= i < index) ==> table[i] == active[i]
      {
        table := table[index := Unused];
      }
    }

    /** A new address space: the kernel entries of the active table and an empty window. */
    static method Create(memory: PhysicalMemory, pool: PhysicalFrameAllocator, active: seq<Entry>)
        returns (r: Outcome<UserAddressSpace>)
      requires pool.Valid() && |active| == ENTRIES
      modifies memory`tables, pool`count, pool.tracked
      ensures r.Panic? ==> pool.Exhausted(r.reason)
      ensures r.Done? ==> var space := r.value;
                && fresh(space) && space.memory == memory && space.pool == pool
                && space.Valid() && space.tree == RootOnly(space.root)
                && space.Around() == Surrounding(old(pool.View()), old(memory.tables), memory.bytes)
                && space.root in memory.tables && EmptyWindow(memory.tables[space.root]) && space.kernel == active
    {
      hide UserAddressSpace.Valid, UserAddressSpace.Base, UserAddressSpace.Around, Kept, EmptyWindow, TableOk;
      ghost var view := pool.View();
      var found :- pool.AllocateFrameFor(PageTable);
      if found.None? {
        return Panic(OutOfFrames);
      }
      var root := found.value;
      var table := CopyKernelEntries(active);
      memory.tables := memory.tables[root := table];
      var space := new UserAddressSpace(memory, pool, root, active);
      space.AroundFresh(view, old(memory.tables));
      return Done(space);
    }

    /** Around a space that is only its root lies everything as it was before. */
    lemma AroundFresh(view: Frames, mem: Tables)
      requires Valid() && tree == RootOnly(root) && root in view && view[root] == FREE
      requires pool.View() == view[root := TABLE_INFO] && SameOutside(mem, memory.tables, {root})
      ensures Around() == Surrounding(view, mem, memory.bytes)
    {
      hide TreeOk;
      RootFrames(root);
      ReleasedGrows(view, {}, root, TABLE_INFO);
      ReleasedNothing(view);
      KeptSame(mem, memory.tables, view, {root});
    }

    /** Frames in use for anything but page tables, with their records, machine-wide. */
    ghost function DataFrames(): set<(nat, Info)>
      requires Valid()
      reads this, memory, pool, pool.tracked
    {
      DataOf(pool.View())
    }

    /** The data frames are those of the base and those of this space's pages. */
    lemma SteadyData()
      requires Valid()
      ensures DataFrames() == DataOf(Steady().0.frames) + PageData(tree.pages)
    {
      DataSplits(tree, pool.View());
    }

    lemma FramesDiffer(p: nat, q: nat)
      requires Valid() && p in tree.pages && q in tree.pages && p != q
      ensures tree.pages[p].frame != tree.pages[q].frame
    {
    }

    lemma RootInTree()
      requires Valid()
      ensures Closed(tree) && ROOT_KEY in tree.tables && tree.tables[ROOT_KEY] == root
    {
    }

    /** The entry at `index` of `table`, which the tree knows as `key`. */
    method ReadEntry(table: nat, ghost key: Key, index: nat) returns (entry: Entry)
      requires Valid() && key in tree.tables && table == tree.tables[key] && InWindow(key, index)
      ensures 1 <= key.level <= 4 && LinkOk(tree, memory.tables, key, index)
      ensures entry == memory.tables[table][index]
    {
      assert HasParent(tree, key);
      assert LinkOk(tree, memory.tables, key, index);
      entry := memory.tables[table][index];
    }

    /** The child table that entry `index` leads to. */
    method ReadChild(table: nat, ghost key: Key, index: nat) returns (child: Option<nat>)
      requires Valid() && key in tree.tables && table == tree.tables[key] && InWindow(key, index) && 2 <= key.level
      ensures key.level <= 4
      ensures child == if Child(key, index) in tree.tables then Some(tree.tables[Child(key, index)]) else None
    {
      var entry := ReadEntry(table, key, index);
      child := if entry.Unused? then None else Some(entry.frame);
    }

    /** The mapping that entry `index` of a level-1 table holds. */
    method ReadPage(table: nat, ghost key: Key, index: nat) returns (found: Option<(nat, set<Flag>)>)
      requires Valid() && key in tree.tables && table == tree.tables[key] && index < ENTRIES && key.level == 1
      ensures var page := ENTRIES * key.prefix + index;
              found == if page in tree.pages then Some((tree.pages[page].frame, tree.pages[page].flags)) else None
    {
      var entry := ReadEntry(table, key, index);
      found := if entry.Unused? then None else Some((entry.frame, entry.flags));
    }

    /** Attach a zeroed table in a free frame below entry `index` of `table`. */
    method AttachTable(table: nat, ghost key: Key, index: nat, flags: set<Flag>) returns (r: Outcome<nat>)
      requires Valid() && key in tree.tables && table == tree.tables[key] && 2 <= key.level && InWindow(key, index)
      requires Child(key, index) !in tree.tables && Allows(tree.tables, memory.tables, key, flags) && NoExecute !in flags
      modifies this, memory`tables, pool`count, pool.tracked
      ensures r.Panic? ==> pool.Exhausted(r.reason)
      ensures r.Done? ==> Valid() && Base() == old(Base())
      ensures r.Done? ==> tree == WithTable(old(tree), Child(key, index), r.value)
      ensures r.Done? ==> Allows(tree.tables, memory.tables, Child(key, index), flags)
      ensures r.Done? ==> SameOutside(old(memory.tables), memory.tables, FramesOf(tree))
    {
      hide TreeOk, Owned, Allows, Released, PhysicalFrameAllocator.Exhausted;
      var found :- TakeFrame(PageTable);
      if found.None? {
        return Panic(OutOfFrames);
      }
      LinkTable(table, key, index, found.value, flags);
      return Done(found.value);
    }

    /** Zero a frame taken for a table and point the unused entry `index` of `table` at it. */
    method LinkTable(table: nat, ghost key: Key, index: nat, frame: nat, flags: set<Flag>)
      requires Valid() && key in tree.tables && table == tree.tables[key] && 2 <= key.level && InWindow(key, index)
      requires Child(key, index) !in tree.tables && Allows(tree.tables, memory.tables, key, flags) && NoExecute !in flags
      requires Spare(frame, PageTable)
      modifies this, memory`tables
      ensures Valid() && tree == WithTable(old(tree), Child(key, index), frame)
      ensures Base() == old(Base())[frame := FREE] && Allows(tree.tables, memory.tables, Child(key, index), flags)
      ensures SameOutside(old(memory.tables), memory.tables, FramesOf(tree))
    {
      hide Allows, LinksPermit, Canonical, TableOk, Released, FramesOf, Distinct, KernelKept;
      ghost var before, mem := tree, memory.tables;
      var _ := ReadEntry(table, key, index);
      memory.tables := memory.tables[table := memory.tables[table][index := Link(frame, flags)]][frame := ZERO_TABLE];
      tree := WithTable(tree, Child(key, index), frame);
      TableAdded(before, mem, key, index, frame, flags);
      KernelAttached(before, mem, kernel, key, index, Link(frame, flags), frame);
      OwnedTable(before, pool.View(), Child(key, index), frame);
      TableFrames(before, Child(key, index), frame);
      ReleasedAlso(pool.View(), FramesOf(before), frame);
      TableInFrames(before, key);
      LinkAllows(tree.tables, memory.tables, key, index, flags);
    }

    /** `create_next_table`: the table below entry `index`, created when absent, through a link that
        carries `flags`. */
    method NextTable(table: nat, ghost key: Key, index: nat, flags: set<Flag>) returns (r: Outcome<nat>)
      requires Valid() && key in tree.tables && table == tree.tables[key] && 2 <= key.level && InWindow(key, index)
      requires Allows(tree.tables, memory.tables, key, flags) && NoExecute !in flags
      modifies this, memory`tables, pool`count, pool.tracked
      ensures r.Panic? ==> pool.Exhausted(r.reason)
      ensures r.Done? ==> Valid() && Base() == old(Base())
      ensures r.Done? ==> Child(key, index) in tree.tables && tree.tables[Child(key, index)] == r.value
      ensures r.Done? ==> Extends(old(tree), tree) && tree.tables.Keys == old(tree.tables.Keys) + {Child(key, index)}
      ensures r.Done? ==> Allows(tree.tables, memory.tables, Child(key, index), flags)
      ensures r.Done? ==> SameOutside(old(memory.tables), memory.tables, FramesOf(tree))
    {
      hide LinksPermit, Allows, Canonical, TableOk, Distinct, KernelKept;
      var entry := ReadEntry(table, key, index);
      if entry.Unused? {
        r := AttachTable(table, key, index, flags);
      } else {
        if !(flags <= entry.flags) {
          AllowsBoth(tree.tables, memory.tables, key, index, flags);
          EntryReflagged(tree, memory.tables, key, index, entry.flags + flags);
          KernelUnwritten(tree, memory.tables, kernel, key, index, Link(entry.frame, entry.flags + flags));
          TableInFrames(tree, key);
          memory.tables := memory.tables[table := memory.tables[table][index := Link(entry.frame, entry.flags + flags)]];
        }
        LinkAllows(tree.tables, memory.tables, key, index, flags);
        return Done(entry.frame);
      }
    }

    /** The level-1 table for `page`, creating the tables on the way to it. */
    method WalkToLeafTable(page: nat, flags: set<Flag>) returns (r: Outcome<nat>)
      requires Valid() && UserPage(page) && NoExecute !in flags
      modifies this, memory`tables, pool`count, pool.tracked
      ensures r.Panic? ==> pool.Exhausted(r.reason)
      ensures r.Done? ==> Valid() && Base() == old(Base()) && Extends(old(tree), tree)
      ensures r.Done? ==> Key(1, page / ENTRIES) in tree.tables && tree.tables[Key(1, page / ENTRIES)] == r.value
      ensures r.Done? ==> tree.tables.Keys == old(tree.tables.Keys) + WalkTables(page)
      ensures r.Done? ==> Allows(tree.tables, memory.tables, Key(1, page / ENTRIES), flags)
      ensures r.Done? ==> SameOutside(old(memory.tables), memory.tables, FramesOf(tree))
    {
      hide UserAddressSpace.Valid, UserAddressSpace.Base, SameOutside, FramesOf, Up, Closed, LinkTo;
      WalkKeys(page);
      RootInTree();
      ghost var mem0 := memory.tables;
      var level3 :- NextTable(root, ROOT_KEY, Up(page, 3) % ENTRIES, flags);
      ghost var tree3, mem3 := tree, memory.tables;
      var level2 :- NextTable(level3, Key(3, Up(page, 3)), Up(page, 2) % ENTRIES, flags);
      ghost var tree2, mem2 := tree, memory.tables;
      SameOutsideChains(mem0, mem3, mem2, tree3, tree2);
      r := NextTable(level2, Key(2, Up(page, 2)), Up(page, 1) % ENTRIES, flags);
      if r.Done? {
        SameOutsideChains(mem0, mem2, memory.tables, tree2, tree);
      }
    }

    /** Map one page. The kernel stops when the page is already mapped or a table cannot be
        allocated. */
    method MapUserPage(page: nat, frame: nat, flags: set<Flag>, ghost owner: FrameOwner) returns (r: Outcome<()>)
      requires Valid() && UserPage(page) && UserOwner(owner) && Spare(frame, owner)
      modifies this, memory`tables, pool`count, pool.tracked
      ensures r.Panic? ==> r.reason == PageAlreadyMapped || pool.Exhausted(r.reason)
      ensures r == Panic(PageAlreadyMapped) ==> page in old(tree.pages)
      ensures r.Done? ==> Valid() && page !in old(tree.pages)
      ensures r.Done? ==> tree.pages == old(tree.pages)[page := Mapping(frame, flags, owner)]
      ensures r.Done? ==> tree.tables.Keys == old(tree.tables.Keys) + WalkTables(page)
      ensures r.Done? ==> Base() == old(Base())[frame := FREE]
      ensures r.Done? ==> SameOutside(old(memory.tables), memory.tables, FramesOf(tree))
    {
      hide TreeOk, TableOk, Owned;
      ghost var view, frames, mem := pool.View(), FramesOf(tree), memory.tables;
      var leaf :- WalkToLeafTable(page, flags * {Writable, UserAccessible});
      BaseKeeps(view, frames, pool.View(), FramesOf(tree), frame);
      ghost var walked, walkedMem := tree, memory.tables;
      var found := ReadPage(leaf, Key(1, page / ENTRIES), page % ENTRIES);
      PageSlot(page, page / ENTRIES, page % ENTRIES);
      if found.Some? {
        return Panic(PageAlreadyMapped);
      }
      SetLeafEntry(leaf, page, frame, flags, owner);
      SameOutsideGrows(mem, walkedMem, memory.tables, FramesOf(walked), FramesOf(tree));
      return Done(());
    }

    /** Point the unused leaf entry of `page` at `frame`. */
    method SetLeafEntry(leaf: nat, page: nat, frame: nat, flags: set<Flag>, ghost owner: FrameOwner)
      requires Valid() && page !in tree.pages && Key(1, page / ENTRIES) in tree.tables
      requires leaf == tree.tables[Key(1, page / ENTRIES)]
      requires Allows(tree.tables, memory.tables, Key(1, page / ENTRIES), flags)
      requires PageOwned(pool.View(), Mapping(frame, flags, owner)) && frame !in FramesOf(tree)
      modifies this, memory`tables
      ensures Valid() && tree == WithPage(old(tree), page, Mapping(frame, flags, owner))
      ensures FramesOf(tree) == FramesOf(old(tree)) + {frame}
      ensures Base() == old(Base())[frame := FREE]
      ensures SameOutside(old(memory.tables), memory.tables, FramesOf(tree))
    {
      ghost var before, mem := tree, memory.tables;
      var _ := ReadEntry(leaf, Key(1, page / ENTRIES), page % ENTRIES);
      memory.tables := memory.tables[leaf := memory.tables[leaf][page % ENTRIES := Link(frame, flags)]];
      tree := WithPage(tree, page, Mapping(frame, flags, owner));
      PageAdded(before, mem, page, Mapping(frame, flags, owner));
      KernelUnwritten(before, mem, kernel, Key(1, page / ENTRIES), page % ENTRIES, Link(frame, flags));
      OwnedPage(before, pool.View(), page, Mapping(frame, flags, owner));
      PageFramesGrow(before, page, Mapping(frame, flags, owner));
      TableInFrames(before, Key(1, page / ENTRIES));
      ReleasedAlso(pool.View(), FramesOf(before), frame);
    }

    /** The level-1 table for `page` if the walk reaches one. */
    method FindLeafTable(page: nat) returns (leaf: Option<nat>)
      requires Valid() && UserPage(page)
      ensures leaf.Some? ==> Key(1, page / ENTRIES) in tree.tables && tree.tables[Key(1, page / ENTRIES)] == leaf.value
      ensures leaf.None? ==> page !in tree.pages
    {
      WalkKeys(page);
      if page in tree.pages {
        PageAncestor(tree, page, 3);
        PageAncestor(tree, page, 2);
        PageAncestor(tree, page, 1);
      }
      var level3 := ReadChild(root, ROOT_KEY, Up(page, 3));
      if level3.None? {
        return None;
      }
      var level2 := ReadChild(level3.value, Key(3, Up(page, 3)), Up(page, 2) % ENTRIES);
      if level2.None? {
        return None;
      }
      leaf := ReadChild(level2.value, Key(2, Up(page, 2)), Up(page, 1) % ENTRIES);
    }

    /** The mapping of `page`, as the table walk finds it. */
    method Translate(page: nat) returns (found: Option<(nat, set<Flag>)>)
      requires Valid() && UserPage(page)
      ensures found == if page in tree.pages then Some((tree.pages[page].frame, tree.pages[page].flags)) else None
    {
      var leaf := FindLeafTable(page);
      if leaf.None? {
        return None;
      }
      PageSlot(page, page / ENTRIES, page % ENTRIES);
      found := ReadPage(leaf.value, Key(1, page / ENTRIES), page % ENTRIES);
    }

    /** Unmap one page and give its frame back; false when it is not mapped. */
    method UnmapUserPageFor(page: nat, owner: FrameOwner) returns (r: Outcome<bool>)
      requires Valid() && UserPage(page) && owner != Nobody
      modifies this, memory`tables, pool`count, pool.tracked
      ensures page in old(tree.pages) && old(tree.pages[page].owner) != owner ==> r == Panic(FrameOwnerMismatch)
      ensures r.Panic? ==>
                || (r.reason == TrackingCapacityExhausted && pool.Exhausted(r.reason))
                || (r.reason == FrameOwnerMismatch && page in old(tree.pages) && old(tree.pages[page].owner) != owner)
      ensures r.Done? ==> Valid() && r.value == (page in old(tree.pages)) && Around() == old(Around())
      ensures r.Done? ==> tree == WithoutPage(old(tree), page)
      ensures r.Done? && !ImageOwner(owner) ==> Steady() == old(Steady())
    {
      hide UserAddressSpace.Valid, UserAddressSpace.Around, ImageOf;
      var leaf := FindLeafTable(page);
      if leaf.None? {
        WithoutUnmapped(tree, page);
        return Done(false);
      }
      PageSlot(page, page / ENTRIES, page % ENTRIES);
      var found := ReadPage(leaf.value, Key(1, page / ENTRIES), page % ENTRIES);
      if found.None? {
        WithoutUnmapped(tree, page);
        return Done(false);
      }
      if tree.pages[page].owner == owner && !ImageOwner(owner) {
        ImageUnmapped(tree, memory.bytes, page);
      }
      r := ReleasePage(leaf.value, page, owner);
    }

    /** Write the bytes of a frame that is not part of the space. */
    method FillFrame(frame: nat, content: Bytes)
      requires Valid() && frame !in FramesOf(tree)
      modifies memory`bytes
      ensures memory.bytes == old(memory.bytes)[frame := content]
      ensures Valid() && Base() == old(Base()) && ImageOf(tree.pages, memory.bytes) == old(ImageOf(tree.pages, memory.bytes))
    {
      hide TreeOk, TableOk, Owned, Released, FramesOf, ImageOf;
      ImageUntouched(tree, memory.bytes, frame, content);
      memory.bytes := memory.bytes[frame := content];
    }

    /** Write the bytes of a frame that is part of the space. */
    method WriteFrame(frame: nat, content: Bytes)
      requires Valid() && frame in FramesOf(tree)
      modifies memory`bytes
      ensures memory.bytes == old(memory.bytes)[frame := content] && Valid() && Around() == old(Around())
    {
      hide TreeOk, TableOk, Owned, FramesOf, Kept, Canonical;
      ReleasedFree(pool.View(), FramesOf(tree));
      KeptUpdate(memory.bytes, Base(), frame, content);
      memory.bytes := memory.bytes[frame := content];
    }

    method ReleasePage(leaf: nat, page: nat, owner: FrameOwner) returns (r: Outcome<bool>)
      requires Valid() && page in tree.pages && owner != Nobody
      requires leaf == tree.tables[Key(1, page / ENTRIES)]
      modifies this, memory`tables, pool`count, pool.tracked
      ensures old(tree.pages[page].owner) != owner ==> r == Panic(FrameOwnerMismatch)
      ensures old(tree.pages[page].owner) == owner && r.Panic? ==>
                r.reason == TrackingCapacityExhausted && pool.Exhausted(r.reason)
      ensures r.Done? ==> r.value && Valid() && Around() == old(Around()) && tree == WithoutPage(old(tree), page)
    {
      hide Linked, Distinct, Kept, FramesOf, Canonical, TableOk;
      ghost var before, mem, view := tree, memory.tables, pool.View();
      var frame := ClearLeafEntry(leaf, page % ENTRIES, page);
      var freed :- pool.FreeFrameFor(frame, owner);
      if !freed {
        return Panic(FrameOwnerMismatch);
      }
      ReleasedFree(view, FramesOf(before));
      KeptSame(mem, memory.tables, Base(), FramesOf(before));
      return Done(true);
    }

    /** Zero the entry of a mapped page; its frame stays allocated for the caller to free. */
    method ClearLeafEntry(leaf: nat, index: nat, ghost page: nat) returns (frame: nat)
      requires Valid() && page in tree.pages && Key(1, page / ENTRIES) in tree.tables && index == page % ENTRIES
      requires leaf == tree.tables[Key(1, page / ENTRIES)]
      modifies this, memory`tables
      ensures frame == old(tree.pages[page].frame) && tree == WithoutPage(old(tree), page)
      ensures TreeOk(tree, memory.tables) && tree.tables[ROOT_KEY] == root && KernelKept(memory.tables, root, kernel)
      ensures PageOwned(pool.View(), old(tree.pages[page]))
      ensures Owned(tree, pool.View()[frame := FREE])
      ensures Released(pool.View()[frame := FREE], FramesOf(tree)) == old(Base())
      ensures SameOutside(old(memory.tables), memory.tables, FramesOf(old(tree)))
    {
      ghost var before, mem := tree, memory.tables;
      PageSlot(page, page / ENTRIES, index);
      var entry := ReadEntry(leaf, Key(1, page / ENTRIES), index);
      frame := entry.frame;
      memory.tables := memory.tables[leaf := memory.tables[leaf][index := Unused]];
      tree := WithoutPage(tree, page);
      PageRemoved(before, mem, page);
      KernelUnwritten(before, mem, kernel, Key(1, page / ENTRIES), index, Unused);
      OwnedWithoutPage(before, pool.View(), page, FREE);
      PageFramesShrink(before, page);
      PageInFrames(before, page);
      TableInFrames(before, Key(1, page / ENTRIES));
      ReleasedShrinks(pool.View(), FramesOf(before), frame);
    }

    /** A frame taken for this space but not mapped yet. */
    ghost predicate Spare(frame: nat, owner: FrameOwner)
      requires Valid()
      reads this, memory, pool, pool.tracked
    {
      frame in pool.View() && pool.View()[frame] == Info(Used, owner) && frame !in FramesOf(tree)
    }

    method TakeFrame(owner: FrameOwner) returns (r: Outcome<Option<nat>>)
      requires Valid() && owner != Nobody
      modifies pool`count, pool.tracked
      ensures r.Panic? ==> r.reason == TrackingCapacityExhausted && pool.Exhausted(r.reason)
      ensures r.Done? ==> Valid()
      ensures r.Done? && r.value.None? ==> Base() == old(Base()) && pool.Exhausted(OutOfFrames)
      ensures r.Done? && r.value.Some? ==>
                && Spare(r.value.value, owner) && r.value.value in old(Base()) && old(Base())[r.value.value] == FREE
                && Base() == old(Base())[r.value.value := Info(Used, owner)]
    {
      ghost var view := pool.View();
      r := pool.AllocateFrameFor(owner);
      if r.Done? && r.value.Some? {
        FreeNotInTree(tree, view, r.value.value);
        ReleasedElsewhere(view, FramesOf(tree), r.value.value, Info(Used, owner));
        OwnedElsewhere(tree, view, r.value.value, Info(Used, owner));
      }
    }

    method ReturnFrame(frame: nat, owner: FrameOwner) returns (r: Outcome<()>)
      requires Valid() && UserOwner(owner) && Spare(frame, owner)
      modifies pool`count, pool.tracked
      ensures r.Panic? ==> r.reason == TrackingCapacityExhausted && pool.Exhausted(r.reason)
      ensures r.Done? ==> Valid() && Base() == old(Base())[frame := FREE]
    {
      ghost var view := pool.View();
      ReleasedElsewhere(view, FramesOf(tree), frame, FREE);
      OwnedElsewhere(tree, view, frame, FREE);
      var freed :- pool.FreeFrameFor(frame, owner);
      assert freed;
      return Done(());
    }

    /** Take `count` contiguous frames. */
    method TakeFrames(count: nat, owner: FrameOwner) returns (r: Outcome<Option<nat>>)
      requires Valid() && UserOwner(owner) && 0 < count
      modifies pool`count, pool.tracked
      ensures r.Panic? ==> r.reason == TrackingCapacityExhausted && pool.Exhausted(r.reason)
      ensures r.Done? ==> Valid()
      ensures r.Done? && r.value.None? ==> Base() == old(Base()) && pool.Exhausted(NoFrameRun(count))
      ensures r.Done? && r.value.Some? ==>
                && 1 <= r.value.value && AllHave(old(Base()), r.value.value, count, FREE)
                && Base() == Painted(old(Base()), r.value.value, count, Info(Used, owner))
    {
      hide PhysicalFrameAllocator.Exhausted, TableOk, Canonical, TreeOk;
      ghost var view := pool.View();
      r := pool.AllocateFramesFor(count, owner);
      if r.Done? && r.value.Some? {
        PaintedElsewhere(tree, view, r.value.value, count, Info(Used, owner));
      }
    }

    /** A frame the base records as in use is not part of the tree. */
    lemma SpareFromBase(frame: nat, owner: FrameOwner)
      requires Valid() && frame in Base() && Base()[frame] == Info(Used, owner)
      ensures Spare(frame, owner)
    {
    }

    lemma TreeFramesFree()
      requires Valid()
      ensures forall frame :: frame in FramesOf(tree) && frame in Base() ==> Base()[frame] == FREE
    {
    }

    /** Writing only to its own frames keeps what is around the space. */
    lemma Undisturbed(before: Tables)
      requires Valid() && SameOutside(before, memory.tables, FramesOf(tree))
      ensures Kept(before, Base()) == Kept(memory.tables, Base())
    {
      ReleasedFree(pool.View(), FramesOf(tree));
      KeptSame(before, memory.tables, Base(), FramesOf(tree));
    }

    /** Take a frame for `owner`, zero it, initialize it, and map it at `page`; the frame goes
        back when its initialization fails. */
    method MapFreshPage(page: nat, flags: set<Flag>, owner: FrameOwner, content: Option<Bytes>)
        returns (r: Outcome<FreshPage>)
      requires Valid() && UserPage(page) && UserOwner(owner)
      modifies this, memory, pool`count, pool.tracked
      ensures r.Panic? ==> r.reason == PageAlreadyMapped || pool.Exhausted(r.reason)
      ensures r == Panic(PageAlreadyMapped) ==> page in old(tree.pages)
      ensures r.Done? ==> Valid() && Around() == old(Around())
      ensures r.Done? && (!ImageOwner(owner) || !r.value.Mapped?) ==> Steady() == old(Steady())
      ensures r.Done? && !r.value.Mapped? ==> tree == old(tree)
      ensures r.Done? && r.value.NoFrame? ==> pool.Exhausted(OutOfFrames) && memory.bytes == old(memory.bytes)
      ensures r.Done? && r.value.Rejected? ==> content.None?
      ensures r.Done? && r.value.Mapped? ==>
                && content.Some? && page !in old(tree.pages)
                && tree.pages == old(tree.pages)[page := Mapping(r.value.frame, flags, owner)]
                && tree.tables.Keys == old(tree.tables.Keys) + WalkTables(page)
                && memory.bytes == old(memory.bytes)[r.value.frame := content.value]
                && FrameUnused(old(tree.pages), r.value.frame)
    {
      hide UserAddressSpace.Valid, UserAddressSpace.Base, FramesOf, ImageOf, Kept, WalkTables;
      ghost var base, mem, pages := Base(), memory.tables, tree.pages;
      var taken :- TakeFilledFrame(owner, content);
      if !taken.Mapped? {
        return Done(taken);
      }
      var frame := taken.frame;
      SpareIsUnused(tree, frame);
      UpdateUndone(base, frame, Info(Used, owner), FREE);
      var _ :- MapUserPage(page, frame, flags, owner);
      Undisturbed(mem);
      if !ImageOwner(owner) {
        ImageMapped(pages, memory.bytes, page, Mapping(frame, flags, owner));
      }
      return Done(taken);
    }

    /** The frame part: a frame taken for `owner` and filled, none, or one given back unfilled. */
    method TakeFilledFrame(owner: FrameOwner, content: Option<Bytes>) returns (r: Outcome<FreshPage>)
      requires Valid() && UserOwner(owner)
      modifies memory`bytes, pool`count, pool.tracked
      ensures r.Panic? ==> pool.Exhausted(r.reason)
      ensures r.Done? ==> Valid() && Kept(memory.bytes, old(Base())) == old(Kept(memory.bytes, Base()))
      ensures r.Done? ==> ImageOf(tree.pages, memory.bytes) == old(ImageOf(tree.pages, memory.bytes))
      ensures r.Done? && !r.value.Mapped? ==> Base() == old(Base())
      ensures r.Done? && r.value.NoFrame? ==> pool.Exhausted(OutOfFrames) && memory.bytes == old(memory.bytes)
      ensures r.Done? && r.value.Rejected? ==> content.None?
      ensures r.Done? && r.value.Mapped? ==>
                var frame := r.value.frame;
                && content.Some? && Spare(frame, owner) && frame in old(Base()) && old(Base())[frame] == FREE
                && Base() == old(Base())[frame := Info(Used, owner)]
                && memory.bytes == old(memory.bytes)[frame := content.value]
    {
      hide UserAddressSpace.Valid, UserAddressSpace.Base, FramesOf, ImageOf, Kept;
      hide PhysicalFrameAllocator.Exhausted, PhysicalFrameAllocator.View;
      ghost var base, bytes := Base(), memory.bytes;
      var found :- TakeFrame(owner);
      if found.None? {
        return Done(NoFrame);
      }
      var frame := found.value;
      UpdateUndone(base, frame, Info(Used, owner), FREE);
      FillFrame(frame, ZeroPage());
      KeptUpdate(bytes, base, frame, ZeroPage());
      if content.None? {
        var _ :- ReturnFrame(frame, owner);
        return Done(Rejected);
      }
      FillFrame(frame, content.value);
      UpdateTwice(bytes, frame, ZeroPage(), content.value);
      KeptUpdate(bytes, base, frame, content.value);
      return Done(Mapped(frame));
    }
  }

  ghost predicate FrameUnused(pages: map<nat, Mapping>, frame: nat) {
    forall page :: page in pages ==> pages[page].frame != frame
  }

  lemma SpareIsUnused(tree: Tree, frame: nat)
    requires frame !in FramesOf(tree)
    ensures FrameUnused(tree.pages, frame)
  {
    forall page | page in tree.pages ensures tree.pages[page].frame != frame {
      PageInFrames(tree, page);
    }
  }

  // ---------------------------------------------------------------- counting free frames

  ghost function FreeFrames(view: Frames): set<nat> {
    set frame | frame in view && view[frame] == FREE
  }

  ghost function FramesAt(pages: map<nat, Mapping>, lo: nat, hi: nat): set<nat> {
    set page: nat | lo <= page < hi && page in pages :: pages[page].frame
  }

  lemma {:induction false} FramesAtSize(pages: map<nat, Mapping>, lo: nat, hi: nat)
    requires lo <= hi
    ensures |FramesAt(pages, lo, hi)| <= hi - lo
    decreases hi - lo
  {
    if lo < hi {
      FramesAtSize(pages, lo, hi - 1);
      var last := if hi - 1 in pages then {pages[hi - 1].frame} else {};
      assert FramesAt(pages, lo, hi) == FramesAt(pages, lo, hi - 1) + last;
    } else {
      assert FramesAt(pages, lo, hi) == {};
    }
  }

  /** Unmapping pages from a full machine frees no more frames than pages. */
  lemma FreedByUnmapping(tree: Tree, view: Frames, after: Tree, view': Frames, lo: nat, hi: nat)
    requires Owned(tree, view) && Owned(after, view') && lo <= hi
    requires Released(view, FramesOf(tree)) == Released(view', FramesOf(after))
    requires NoneFree(view) && after.tables == tree.tables
    requires forall page :: page in tree.pages && !(lo <= page < hi) ==> page in after.pages && after.pages[page] == tree.pages[page]
    ensures |FreeFrames(view')| <= hi - lo
  {
    forall frame | frame in FreeFrames(view') ensures frame in FramesAt(tree.pages, lo, hi) {
      FreeNotInTree(after, view', frame);
      assert frame in Released(view', FramesOf(after)) && Released(view', FramesOf(after))[frame] == FREE;
      assert frame in Released(view, FramesOf(tree));
      assert frame in FramesOf(tree);
      FreedPage(tree, after, frame, lo, hi);
    }
    FramesAtSize(tree.pages, lo, hi);
    SubsetSize(FreeFrames(view'), FramesAt(tree.pages, lo, hi));
  }

  lemma FreedPage(tree: Tree, after: Tree, frame: nat, lo: nat, hi: nat)
    requires frame in FramesOf(tree) && frame !in FramesOf(after) && after.tables == tree.tables
    requires forall page :: page in tree.pages && !(lo <= page < hi) ==> page in after.pages && after.pages[page] == tree.pages[page]
    ensures frame in FramesAt(tree.pages, lo, hi)
  {
    forall p | p in after.pages ensures after.pages[p].frame != frame {
      PageInFrames(after, p);
    }
    var page :| page in tree.pages && tree.pages[page].frame == frame;
    assert lo <= page < hi;
  }

  lemma UpdateTwice<V>(contents: map<nat, V>, frame: nat, a: V, b: V)
    ensures contents[frame := a][frame := b] == contents[frame := b]
  {
  }

  lemma WithoutUnmapped(tree: Tree, page: nat)
    requires page !in tree.pages
    ensures WithoutPage(tree, page) == tree
  {
  }

  lemma PaintedElsewhere(tree: Tree, view: Frames, start: nat, count: nat, tag: Info)
    requires Owned(tree, view) && AllHave(view, start, count, FREE)
    ensures Owned(tree, Painted(view, start, count, tag))
    ensures AllHave(Released(view, FramesOf(tree)), start, count, FREE)
    ensures Released(Painted(view, start, count, tag), FramesOf(tree)) == Painted(Released(view, FramesOf(tree)), start, count, tag)
  {
    forall frame | InRange(frame, start, count) ensures frame !in FramesOf(tree) {
      FreeNotInTree(tree, view, frame);
    }
    PaintedOwned(tree, view, start, count, tag);
    PaintedReleased(view, FramesOf(tree), start, count, tag);
  }

  lemma PaintedOwned(tree: Tree, view: Frames, start: nat, count: nat, tag: Info)
    requires Owned(tree, view)
    requires forall frame :: InRange(frame, start, count) ==> frame !in FramesOf(tree)
    ensures Owned(tree, Painted(view, start, count, tag))
  {
    forall key | key in tree.tables
      ensures tree.tables[key] in Painted(view, start, count, tag)
      ensures Painted(view, start, count, tag)[tree.tables[key]] == TABLE_INFO
    {
      TableInFrames(tree, key);
      PaintedAt(view, start, count, tag, tree.tables[key]);
    }
    forall page | page in tree.pages ensures PageOwned(Painted(view, start, count, tag), tree.pages[page]) {
      PageInFrames(tree, page);
      PaintedAt(view, start, count, tag, tree.pages[page].frame);
    }
  }

  lemma PaintedReleased(view: Frames, frames: set<nat>, start: nat, count: nat, tag: Info)
    requires forall frame :: InRange(frame, start, count) ==> frame !in frames
    ensures Released(Painted(view, start, count, tag), frames) == Painted(Released(view, frames), start, count, tag)
  {
    var left, right := Released(Painted(view, start, count, tag), frames), Painted(Released(view, frames), start, count, tag);
    forall frame: nat
      ensures frame in left <==> frame in right
      ensures frame in left ==> left[frame] == right[frame]
    {
      PaintedAt(view, start, count, tag, frame);
      PaintedAt(Released(view, frames), start, count, tag, frame);
    }
    SameMap(left, right);
  }

  datatype FreshPage = Mapped(frame: nat) | NoFrame | Rejected

  lemma UpdateUndone<K, V>(m: map<K, V>, key: K, value: V, was: V)
    requires key in m && m[key] == was
    ensures m[key := value][key := was] == m
  {
  }

  lemma ReleasedElsewhere(view: Frames, frames: set<nat>, frame: nat, info: Info)
    requires frame in view && frame !in frames
    ensures Released(view[frame := info], frames) == Released(view, frames)[frame := info]
    ensures Released(view, frames)[frame] == view[frame]
  {
  }

  lemma OwnedElsewhere(tree: Tree, view: Frames, frame: nat, info: Info)
    requires Owned(tree, view) && frame !in FramesOf(tree)
    ensures Owned(tree, view[frame := info])
  {
    forall key | key in tree.tables ensures tree.tables[key] != frame {
      TableInFrames(tree, key);
    }
    forall page | page in tree.pages ensures tree.pages[page].frame != frame {
      PageInFrames(tree, page);
    }
  }

  lemma ReleasedAlso(view: Frames, frames: set<nat>, frame: nat)
    requires frame in view
    ensures Released(view, frames + {frame}) == Released(view, frames)[frame := FREE]
  {
  }

  /** A frame in use that the space does not hold is untouched while the base stays the same. */
  lemma BaseKeeps(view: Frames, frames: set<nat>, view': Frames, frames': set<nat>, frame: nat)
    requires Released(view, frames) == Released(view', frames')
    requires frame in view && frame !in frames && view[frame] != FREE
    ensures frame in view' && frame !in frames' && view'[frame] == view[frame]
  {
    assert frame in Released(view, frames);
    assert Released(view, frames)[frame] == Released(view', frames')[frame];
  }

  /** The tables below the root on the way to `page`. */
  function WalkTables(page: nat): set<Key> {
    {Key(3, Up(page, 3)), Key(2, Up(page, 2)), Key(1, Up(page, 1))}
  }

  /** More tables, the same pages. */
  ghost predicate Extends(before: Tree, after: Tree) {
    && before.pages == after.pages
    && (forall key :: key in before.tables ==> key in after.tables && after.tables[key] == before.tables[key])
  }

  lemma ExtendsFrames(before: Tree, after: Tree)
    requires Extends(before, after)
    ensures FramesOf(before) <= FramesOf(after)
  {
    forall key | key in before.tables ensures before.tables[key] in after.tables.Values {
      assert after.tables[key] == before.tables[key];
    }
  }

  lemma SameOutsideChains(mem0: Tables, mem1: Tables, mem2: Tables, tree1: Tree, tree2: Tree)
    requires SameOutside(mem0, mem1, FramesOf(tree1)) && SameOutside(mem1, mem2, FramesOf(tree2))
    requires Extends(tree1, tree2)
    ensures SameOutside(mem0, mem2, FramesOf(tree2))
  {
    ExtendsFrames(tree1, tree2);
  }

  lemma SameOutsideGrows(mem0: Tables, mem1: Tables, mem2: Tables, frames1: set<nat>, frames2: set<nat>)
    requires SameOutside(mem0, mem1, frames1) && SameOutside(mem1, mem2, frames2) && frames1 <= frames2
    ensures SameOutside(mem0, mem2, frames2)
  {
  }

  lemma WalkKeys(page: nat)
    requires UserPage(page)
    ensures Up(page, 3) % ENTRIES == Up(page, 3) && InWindow(ROOT_KEY, Up(page, 3))
    ensures Child(ROOT_KEY, Up(page, 3)) == Key(3, Up(page, 3))
    ensures Child(Key(3, Up(page, 3)), Up(page, 2) % ENTRIES) == Key(2, Up(page, 2))
    ensures Child(Key(2, Up(page, 2)), Up(page, 1) % ENTRIES) == Key(1, Up(page, 1))
    ensures Up(page, 1) == page / ENTRIES
  {
    assert Up(page, 3) == Up(page, 2) / ENTRIES && Up(page, 2) == Up(page, 1) / ENTRIES && Up(page, 1) == Up(page, 0) / ENTRIES;
  }
}
