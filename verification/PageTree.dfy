/** Four-level page tables stored in physical frames, and the tree of tables and mapped pages
    they hold for the process window of an address space. */
module PageTree {
  import opened Machine
  import opened FrameTable

  datatype Flag = Writable | UserAccessible | NoExecute

  /** Writable pages cannot be executed. */
  predicate WriteOrExecute(flags: set<Flag>) {
    Writable in flags ==> NoExecute in flags
  }

  /** A page-table entry: zero, or present with a frame and its other permission bits. */
  datatype Entry = Unused | Link(frame: nat, flags: set<Flag>)

  type Tables = map<nat, seq<Entry>>

  const ENTRIES: nat := 512
  const WINDOW_START: nat := 128
  const WINDOW_END: nat := 256

  const ZERO_TABLE: seq<Entry> := seq(ENTRIES, _ => Unused)

  /** A table by its level (4 is the root) and the page-number bits that select it. */
  datatype Key = Key(level: nat, prefix: nat)

  const ROOT_KEY := Key(4, 0)

  function Child(key: Key, index: nat): Key
    requires 1 <= key.level
  {
    Key(key.level - 1, ENTRIES * key.prefix + index)
  }

  function Parent(key: Key): Key {
    Key(key.level + 1, key.prefix / ENTRIES)
  }

  predicate InWindow(key: Key, index: nat) {
    index < ENTRIES && (key.level == 4 ==> WINDOW_START <= index < WINDOW_END)
  }

  /** `page` shifted right by `levels` table levels. */
  function Up(page: nat, levels: nat): nat {
    if levels == 0 then page else Up(page, levels - 1) / ENTRIES
  }

  /** Pages whose root slot lies in the process window. */
  predicate UserPage(page: nat) {
    WINDOW_START <= Up(page, 3) < WINDOW_END
  }

  /** A mapped page: its frame, its permission bits, and who the frame is allocated to. */
  datatype Mapping = Mapping(frame: nat, flags: set<Flag>, owner: FrameOwner)

  /** A user program may read and write the page and not execute it. */
  predicate DataPage(mapping: Mapping) {
    Writable in mapping.flags && UserAccessible in mapping.flags && NoExecute in mapping.flags
  }

  /** What the window of an address space holds: its tables and its mapped pages. */
  datatype Tree = Tree(tables: map<Key, nat>, pages: map<nat, Mapping>)

  ghost function PageFrames(pages: map<nat, Mapping>): set<nat> {
    set page | page in pages :: pages[page].frame
  }

  ghost function FramesOf(tree: Tree): set<nat> {
    tree.tables.Values + PageFrames(tree.pages)
  }

  // ---------------------------------------------------------------- well-formed trees

  predicate KeyOk(key: Key) {
    && 1 <= key.level <= 4
    && (key.level == 4 ==> key.prefix == 0)
    && (key.level == 3 ==> WINDOW_START <= key.prefix < WINDOW_END)
  }

  ghost predicate HasParent(tree: Tree, key: Key) {
    KeyOk(key) && (key.level < 4 ==> Parent(key) in tree.tables)
  }

  ghost predicate Closed(tree: Tree) {
    && ROOT_KEY in tree.tables
    && (forall key {:trigger HasParent(tree, key)} :: key in tree.tables ==> HasParent(tree, key))
    && (forall page :: page in tree.pages ==> Key(1, page / ENTRIES) in tree.tables)
  }

  ghost predicate Distinct(tree: Tree) {
    && (forall j, k :: j in tree.tables && k in tree.tables && tree.tables[j] == tree.tables[k] ==> j == k)
    && (forall p, q :: p in tree.pages && q in tree.pages && tree.pages[p].frame == tree.pages[q].frame ==> p == q)
    && (forall k, p :: k in tree.tables && p in tree.pages ==> tree.tables[k] != tree.pages[p].frame)
  }

  /** Entry `index` of the table at `key` agrees with the tree. */
  ghost predicate LinkOk(tree: Tree, mem: Tables, key: Key, index: nat)
    requires key in tree.tables && 1 <= key.level
  {
    && tree.tables[key] in mem && |mem[tree.tables[key]]| == ENTRIES
    && index < ENTRIES
    && var entry := mem[tree.tables[key]][index];
       if key.level == 1 then
         var page := ENTRIES * key.prefix + index;
         if page in tree.pages then entry == Link(tree.pages[page].frame, tree.pages[page].flags) else entry.Unused?
       else if Child(key, index) in tree.tables then entry.Link? && entry.frame == tree.tables[Child(key, index)]
       else entry.Unused?
  }

  ghost predicate Linked(tree: Tree, mem: Tables)
  {
    forall key, index {:trigger LinkOk(tree, mem, key, index)} ::
      key in tree.tables && InWindow(key, index) && 1 <= key.level ==> LinkOk(tree, mem, key, index)
  }

  /** Entry `index` of the table at `key`, unused when there is no such table. */
  ghost function StoredEntry(tables: map<Key, nat>, mem: Tables, key: Key, index: nat): Entry {
    if key in tables && tables[key] in mem && index < |mem[tables[key]]| then mem[tables[key]][index] else Unused
  }

  /** The link that leads to the table at `key`. */
  ghost function LinkTo(tables: map<Key, nat>, mem: Tables, key: Key): Entry {
    StoredEntry(tables, mem, Parent(key), key.prefix % ENTRIES)
  }

  /** A link forbids no execution, and what an entry permits the link above it permits too. */
  predicate Permits(above: Entry, level: nat, entry: Entry) {
    entry.Link? ==>
      && (2 <= level ==> NoExecute !in entry.flags)
      && (level < 4 ==> above.Link? && entry.flags * {Writable, UserAccessible} <= above.flags)
  }

  ghost predicate LinkPermits(tables: map<Key, nat>, mem: Tables, key: Key, index: nat) {
    Permits(LinkTo(tables, mem, key), key.level, StoredEntry(tables, mem, key, index))
  }

  /** An entry with these flags may stand in the table at `key`. */
  ghost predicate Allows(tables: map<Key, nat>, mem: Tables, key: Key, flags: set<Flag>) {
    Permits(LinkTo(tables, mem, key), key.level, Link(0, flags))
  }

  ghost predicate LinksPermit(tables: map<Key, nat>, mem: Tables) {
    forall key, index {:trigger LinkPermits(tables, mem, key, index)} ::
      key in tables && InWindow(key, index) ==> LinkPermits(tables, mem, key, index)
  }

  ghost predicate TreeOk(tree: Tree, mem: Tables) {
    Closed(tree) && Distinct(tree) && Linked(tree, mem) && LinksPermit(tree.tables, mem)
  }

  // ---------------------------------------------------------------- growing and shrinking

  function WithEntry(mem: Tables, table: nat, index: nat, entry: Entry): Tables
    requires table in mem && index < |mem[table]|
  {
    mem[table := mem[table][index := entry]]
  }

  /** Tree with a new empty table at `key`. */
  function WithTable(tree: Tree, key: Key, frame: nat): Tree {
    tree.(tables := tree.tables[key := frame])
  }

  function WithPage(tree: Tree, page: nat, mapping: Mapping): Tree {
    tree.(pages := tree.pages[page := mapping])
  }

  function WithoutTable(tree: Tree, key: Key): Tree {
    tree.(tables := tree.tables - {key})
  }

  function WithoutPage(tree: Tree, page: nat): Tree {
    tree.(pages := tree.pages - {page})
  }

  lemma ChildOfParent(key: Key, index: nat)
    requires 1 <= key.level && index < ENTRIES
    ensures Parent(Child(key, index)) == key && Child(key, index).prefix % ENTRIES == index
  {
  }

  lemma ChildrenDiffer(a: Key, i: nat, b: Key, j: nat)
    requires 1 <= a.level && 1 <= b.level && i < ENTRIES && j < ENTRIES && Child(a, i) == Child(b, j)
    ensures a == b && i == j
  {
    ChildOfParent(a, i);
    ChildOfParent(b, j);
  }

  lemma PageSlot(page: nat, prefix: nat, index: nat)
    requires index < ENTRIES
    ensures page == ENTRIES * prefix + index <==> page / ENTRIES == prefix && page % ENTRIES == index
  {
  }

  lemma NothingBelowMissing(tree: Tree, key: Key, index: nat)
    requires Closed(tree) && 1 <= key.level < 4 && key !in tree.tables && index < ENTRIES
    ensures key.level >= 2 ==> Child(key, index) !in tree.tables
    ensures key.level == 1 ==> ENTRIES * key.prefix + index !in tree.pages
  {
    ChildOfParent(key, index);
    if key.level >= 2 {
      assert Child(key, index) in tree.tables ==> HasParent(tree, Child(key, index));
    }
  }

  /** An entry that no update reached still mirrors the tree. */
  lemma LinkKept(before: Tree, after: Tree, mem: Tables, mem': Tables, key: Key, index: nat)
    requires key in before.tables && key in after.tables && 1 <= key.level && LinkOk(before, mem, key, index)
    requires before.tables[key] == after.tables[key]
    requires before.tables[key] in mem' && |mem'[before.tables[key]]| == ENTRIES
    requires mem'[before.tables[key]][index] == mem[before.tables[key]][index]
    requires key.level >= 2 && Child(key, index) in before.tables ==>
               Child(key, index) in after.tables && before.tables[Child(key, index)] == after.tables[Child(key, index)]
    requires key.level >= 2 && Child(key, index) in after.tables ==> Child(key, index) in before.tables
    requires key.level == 1 ==> var page := ENTRIES * key.prefix + index;
               (page in before.pages <==> page in after.pages) &&
               (page in before.pages ==> before.pages[page] == after.pages[page])
    ensures LinkOk(after, mem', key, index)
  {
  }

  lemma TableInFrames(tree: Tree, key: Key)
    requires key in tree.tables
    ensures tree.tables[key] in FramesOf(tree)
  {
    assert tree.tables[key] in tree.tables.Values;
  }

  lemma PageInFrames(tree: Tree, page: nat)
    requires page in tree.pages
    ensures tree.pages[page].frame in FramesOf(tree)
  {
    assert tree.pages[page].frame in PageFrames(tree.pages);
  }

  lemma TableAddedShape(tree: Tree, key: Key, index: nat, frame: nat)
    requires Closed(tree) && Distinct(tree) && key in tree.tables && 2 <= key.level && InWindow(key, index)
    requires Child(key, index) !in tree.tables && frame !in FramesOf(tree)
    ensures Closed(WithTable(tree, Child(key, index), frame)) && Distinct(WithTable(tree, Child(key, index), frame))
  {
    var child := Child(key, index);
    var grown := WithTable(tree, child, frame);
    ChildOfParent(key, index);
    assert HasParent(tree, key);
    forall k {:trigger HasParent(grown, k)} | k in grown.tables ensures HasParent(grown, k) {
      if k != child {
        assert HasParent(tree, k);
      }
    }
    forall k | k in tree.tables ensures tree.tables[k] != frame {
      TableInFrames(tree, k);
    }
    forall p | p in tree.pages ensures tree.pages[p].frame != frame {
      PageInFrames(tree, p);
    }
  }

  // ---------------------------------------------------------------- links keep their permissions

  ghost predicate Injective(tables: map<Key, nat>) {
    forall j, k :: j in tables && k in tables && tables[j] == tables[k] ==> j == k
  }

  /** Writing an entry changes that entry of that table alone. */
  lemma EntryWritten(tables: map<Key, nat>, mem: Tables, key: Key, index: nat, entry: Entry, k: Key, i: nat)
    requires Injective(tables) && key in tables && tables[key] in mem && index < |mem[tables[key]]|
    ensures StoredEntry(tables, WithEntry(mem, tables[key], index, entry), k, i)
         == if k == key && i == index then entry else StoredEntry(tables, mem, k, i)
  {
  }

  /** Only the one child of `key` at `index` is reached through that entry. */
  lemma LinkToIs(k: Key, key: Key, index: nat)
    requires 1 <= key.level && index < ENTRIES
    ensures Parent(k) == key && k.prefix % ENTRIES == index <==> k == Child(key, index)
  {
    ChildOfParent(key, index);
  }

  /** Below a link that carries `flags`, entries may carry them too. */
  lemma LinkAllows(tables: map<Key, nat>, mem: Tables, key: Key, index: nat, flags: set<Flag>)
    requires key in tables && tables[key] in mem && index < |mem[tables[key]]| && 2 <= key.level && index < ENTRIES
    requires mem[tables[key]][index].Link? && flags <= mem[tables[key]][index].flags && NoExecute !in flags
    ensures Allows(tables, mem, Child(key, index), flags)
  {
    ChildOfParent(key, index);
  }

  /** What a link has and what may be added to it, together, the link above allows. */
  lemma AllowsBoth(tables: map<Key, nat>, mem: Tables, key: Key, index: nat, flags: set<Flag>)
    requires LinksPermit(tables, mem) && key in tables && InWindow(key, index) && Allows(tables, mem, key, flags)
    requires tables[key] in mem && index < |mem[tables[key]]| && mem[tables[key]][index].Link?
    ensures Allows(tables, mem, key, mem[tables[key]][index].flags + flags)
  {
    assert LinkPermits(tables, mem, key, index);
  }

  /** An entry may be written when the link above permits it and it takes nothing from a table below. */
  lemma WritePermits(tables: map<Key, nat>, mem: Tables, key: Key, index: nat, entry: Entry)
    requires Injective(tables) && LinksPermit(tables, mem) && key in tables && InWindow(key, index) && 1 <= key.level
    requires tables[key] in mem && index < |mem[tables[key]]|
    requires Permits(LinkTo(tables, mem, key), key.level, entry)
    requires Child(key, index) in tables && mem[tables[key]][index].Link? ==>
               entry.Link? && mem[tables[key]][index].flags <= entry.flags
    ensures LinksPermit(tables, WithEntry(mem, tables[key], index, entry))
  {
    hide StoredEntry, Injective;
    var after := WithEntry(mem, tables[key], index, entry);
    forall k, i {:trigger LinkPermits(tables, after, k, i)} | k in tables && InWindow(k, i)
      ensures LinkPermits(tables, after, k, i)
    {
      EntryWritten(tables, mem, key, index, entry, k, i);
      EntryWritten(tables, mem, key, index, entry, Parent(k), k.prefix % ENTRIES);
      EntryIs(tables, mem, key, index);
      LinkToIs(k, key, index);
      assert LinkPermits(tables, mem, k, i);
    }
  }

  lemma EntryIs(tables: map<Key, nat>, mem: Tables, key: Key, index: nat)
    requires key in tables && tables[key] in mem && index < |mem[tables[key]]|
    ensures StoredEntry(tables, mem, key, index) == mem[tables[key]][index]
  {
  }

  /** A zeroed table may come or go where no table hangs below it. */
  lemma ZeroTablePermits(fewer: map<Key, nat>, mem: Tables, more: map<Key, nat>, child: Key, frame: nat)
    requires child !in fewer && more == fewer[child := frame] && frame !in fewer.Values
    requires forall k :: k in fewer ==> Parent(k) != child
    ensures LinksPermit(fewer, mem) ==> LinksPermit(more, mem[frame := ZERO_TABLE])
    ensures LinksPermit(more, mem) ==> LinksPermit(fewer, mem[frame := ZERO_TABLE])
  {
    var after := mem[frame := ZERO_TABLE];
    forall k, i | k in more
      ensures StoredEntry(more, after, k, i) == if k == child then Unused else StoredEntry(fewer, mem, k, i)
      ensures k in fewer ==> StoredEntry(fewer, after, k, i) == StoredEntry(more, mem, k, i)
    {
      assert k in fewer ==> fewer[k] in fewer.Values;
    }
    forall k, i {:trigger LinkPermits(more, after, k, i)} | LinksPermit(fewer, mem) && k in more && InWindow(k, i)
      ensures LinkPermits(more, after, k, i)
    {
      assert k != child ==> LinkPermits(fewer, mem, k, i);
    }
    forall k, i {:trigger LinkPermits(fewer, after, k, i)} | LinksPermit(more, mem) && k in fewer && InWindow(k, i)
      ensures LinkPermits(fewer, after, k, i)
    {
      assert LinkPermits(more, mem, k, i);
    }
  }

  lemma TableAddedPermits(tree: Tree, mem: Tables, key: Key, index: nat, frame: nat, flags: set<Flag>)
    requires Closed(tree) && Distinct(tree) && LinksPermit(tree.tables, mem)
    requires key in tree.tables && 2 <= key.level <= 4 && InWindow(key, index)
    requires Child(key, index) !in tree.tables && frame !in FramesOf(tree) && LinkOk(tree, mem, key, index)
    requires Allows(tree.tables, mem, key, flags)
    ensures LinksPermit(WithTable(tree, Child(key, index), frame).tables,
                      WithEntry(mem, tree.tables[key], index, Link(frame, flags))[frame := ZERO_TABLE])
  {
    hide LinksPermit, LinkTo;
    var child := Child(key, index);
    WritePermits(tree.tables, mem, key, index, Link(frame, flags));
    forall k | k in tree.tables ensures Parent(k) != child {
      assert HasParent(tree, k);
    }
    ZeroTablePermits(tree.tables, WithEntry(mem, tree.tables[key], index, Link(frame, flags)),
                     tree.tables[child := frame], child, frame);
  }

  /** Nothing of the tree lies directly below `key`. */
  ghost predicate Childless(tree: Tree, key: Key) {
    && (forall k :: k in tree.tables && k.level < 4 ==> Parent(k) != key)
    && (key.level == 1 ==> forall page :: page in tree.pages ==> page / ENTRIES != key.prefix)
  }

  lemma TableRemovedPermits(tree: Tree, mem: Tables, key: Key, index: nat)
    requires Closed(tree) && Distinct(tree) && LinksPermit(tree.tables, mem)
    requires key in tree.tables && 2 <= key.level <= 4 && InWindow(key, index)
    requires Child(key, index) in tree.tables && Childless(tree, Child(key, index)) && LinkOk(tree, mem, key, index)
    ensures LinksPermit(WithoutTable(tree, Child(key, index)).tables,
                      WithEntry(mem[tree.tables[Child(key, index)] := ZERO_TABLE], tree.tables[key], index, Unused))
  {
    hide LinksPermit, LinkTo;
    var child := Child(key, index);
    var fewer, frame := tree.tables - {child}, tree.tables[child];
    assert tree.tables == fewer[child := frame];
    forall k | k in fewer ensures Parent(k) != child {
      assert HasParent(tree, k);
    }
    ZeroTablePermits(fewer, mem, tree.tables, child, frame);
    WritePermits(fewer, mem[frame := ZERO_TABLE], key, index, Unused);
  }

  // ---------------------------------------------------------------- one change to a tree

  lemma TableAddedLinks(tree: Tree, mem: Tables, key: Key, index: nat, frame: nat, flags: set<Flag>)
    requires Closed(tree) && Distinct(tree) && Linked(tree, mem)
    requires key in tree.tables && 2 <= key.level && InWindow(key, index)
    requires Child(key, index) !in tree.tables && frame !in FramesOf(tree) && LinkOk(tree, mem, key, index)
    ensures Linked(WithTable(tree, Child(key, index), frame),
                   WithEntry(mem, tree.tables[key], index, Link(frame, flags))[frame := ZERO_TABLE])
  {
    var child := Child(key, index);
    var grown := WithTable(tree, child, frame);
    var after := WithEntry(mem, tree.tables[key], index, Link(frame, flags))[frame := ZERO_TABLE];
    ChildOfParent(key, index);
    assert HasParent(tree, key);
    forall k, i {:trigger LinkOk(grown, after, k, i)} | k in grown.tables && InWindow(k, i) && 1 <= k.level
      ensures LinkOk(grown, after, k, i)
    {
      if k == child {
        NothingBelowMissing(tree, k, i);
      } else if k == key && i == index {
      } else {
        if k.level >= 2 && Child(k, i) == child {
          ChildrenDiffer(k, i, key, index);
        }
        assert LinkOk(tree, mem, k, i);
        assert tree.tables[k] in tree.tables.Values;
        LinkKept(tree, grown, mem, after, k, i);
      }
    }
  }

  lemma TableAdded(tree: Tree, mem: Tables, key: Key, index: nat, frame: nat, flags: set<Flag>)
    requires TreeOk(tree, mem) && key in tree.tables && 2 <= key.level && InWindow(key, index)
    requires Child(key, index) !in tree.tables && frame !in FramesOf(tree)
    requires LinkOk(tree, mem, key, index) && Allows(tree.tables, mem, key, flags)
    ensures TreeOk(WithTable(tree, Child(key, index), frame),
                   WithEntry(mem, tree.tables[key], index, Link(frame, flags))[frame := ZERO_TABLE])
  {
    assert HasParent(tree, key);
    hide Closed, Distinct, Linked, LinksPermit, FramesOf, Allows;
    TableAddedShape(tree, key, index, frame);
    TableAddedLinks(tree, mem, key, index, frame, flags);
    TableAddedPermits(tree, mem, key, index, frame, flags);
  }

  lemma EntryReflagged(tree: Tree, mem: Tables, key: Key, index: nat, flags: set<Flag>)
    requires TreeOk(tree, mem) && key in tree.tables && 2 <= key.level && InWindow(key, index)
    requires Child(key, index) in tree.tables && LinkOk(tree, mem, key, index)
    requires Allows(tree.tables, mem, key, flags)
    requires mem[tree.tables[key]][index].flags <= flags
    ensures TreeOk(tree, WithEntry(mem, tree.tables[key], index, Link(tree.tables[Child(key, index)], flags)))
  {
    hide LinksPermit, LinkTo;
    var after := WithEntry(mem, tree.tables[key], index, Link(tree.tables[Child(key, index)], flags));
    WritePermits(tree.tables, mem, key, index, Link(tree.tables[Child(key, index)], flags));
    forall k, i {:trigger LinkOk(tree, after, k, i)} | k in tree.tables && InWindow(k, i) && 1 <= k.level
      ensures LinkOk(tree, after, k, i)
    {
      assert LinkOk(tree, mem, k, i);
      if k != key || i != index {
        LinkKept(tree, tree, mem, after, k, i);
      }
    }
  }

  /** No table hangs below a level-1 table. */
  lemma NoneBelowLeaves(tree: Tree, key: Key, index: nat)
    requires Closed(tree) && key.level == 1
    ensures Child(key, index) !in tree.tables
  {
    assert Child(key, index) in tree.tables ==> HasParent(tree, Child(key, index));
  }

  lemma PageAddedShape(tree: Tree, page: nat, mapping: Mapping)
    requires Closed(tree) && Distinct(tree) && Key(1, page / ENTRIES) in tree.tables
    requires page !in tree.pages && mapping.frame !in FramesOf(tree)
    ensures Closed(WithPage(tree, page, mapping)) && Distinct(WithPage(tree, page, mapping))
  {
    var grown := WithPage(tree, page, mapping);
    forall k {:trigger HasParent(grown, k)} | k in grown.tables ensures HasParent(grown, k) {
      assert HasParent(tree, k);
    }
    forall k | k in tree.tables ensures tree.tables[k] != mapping.frame {
      TableInFrames(tree, k);
    }
    forall p | p in tree.pages ensures tree.pages[p].frame != mapping.frame {
      PageInFrames(tree, p);
    }
  }

  /** Rewriting the entry of `page` is all it takes for the tables to show a tree that differs there. */
  lemma PageLinks(tree: Tree, changed: Tree, mem: Tables, page: nat, entry: Entry)
    requires Closed(tree) && Distinct(tree) && Linked(tree, mem) && Key(1, page / ENTRIES) in tree.tables
    requires changed.tables == tree.tables && changed.pages - {page} == tree.pages - {page}
    requires entry == if page in changed.pages then Link(changed.pages[page].frame, changed.pages[page].flags) else Unused
    requires LinkOk(tree, mem, Key(1, page / ENTRIES), page % ENTRIES)
    ensures Linked(changed, WithEntry(mem, tree.tables[Key(1, page / ENTRIES)], page % ENTRIES, entry))
  {
    var key, index := Key(1, page / ENTRIES), page % ENTRIES;
    var after := WithEntry(mem, tree.tables[key], index, entry);
    forall k, i {:trigger LinkOk(changed, after, k, i)} | k in changed.tables && InWindow(k, i) && 1 <= k.level
      ensures LinkOk(changed, after, k, i)
    {
      assert LinkOk(tree, mem, k, i);
      PageSlot(page, k.prefix, i);
      if k != key || i != index {
        SamePage(tree.pages, changed.pages, page, ENTRIES * k.prefix + i);
        LinkKept(tree, changed, mem, after, k, i);
      }
    }
  }

  lemma SamePage(pages: map<nat, Mapping>, changed: map<nat, Mapping>, page: nat, other: nat)
    requires changed - {page} == pages - {page}
    ensures other != page ==> (other in pages <==> other in changed)
    ensures other != page && other in pages ==> pages[other] == changed[other]
  {
    assert other != page ==> (other in pages <==> other in pages - {page}) && (other in changed <==> other in changed - {page});
    assert other != page && other in pages ==> (pages - {page})[other] == (changed - {page})[other];
  }

  lemma PageAdded(tree: Tree, mem: Tables, page: nat, mapping: Mapping)
    requires TreeOk(tree, mem) && Key(1, page / ENTRIES) in tree.tables
    requires page !in tree.pages && mapping.frame !in FramesOf(tree)
    requires LinkOk(tree, mem, Key(1, page / ENTRIES), page % ENTRIES)
    requires Allows(tree.tables, mem, Key(1, page / ENTRIES), mapping.flags)
    ensures TreeOk(WithPage(tree, page, mapping),
                   WithEntry(mem, tree.tables[Key(1, page / ENTRIES)], page % ENTRIES, Link(mapping.frame, mapping.flags)))
  {
    PageAddedShape(tree, page, mapping);
    NoneBelowLeaves(tree, Key(1, page / ENTRIES), page % ENTRIES);
    hide Closed, Linked, LinksPermit, LinkTo, FramesOf;
    PageLinks(tree, WithPage(tree, page, mapping), mem, page, Link(mapping.frame, mapping.flags));
    WritePermits(tree.tables, mem, Key(1, page / ENTRIES), page % ENTRIES, Link(mapping.frame, mapping.flags));
  }

  lemma PageRemoved(tree: Tree, mem: Tables, page: nat)
    requires TreeOk(tree, mem) && page in tree.pages
    requires LinkOk(tree, mem, Key(1, page / ENTRIES), page % ENTRIES)
    ensures TreeOk(WithoutPage(tree, page), WithEntry(mem, tree.tables[Key(1, page / ENTRIES)], page % ENTRIES, Unused))
  {
    var shrunk := WithoutPage(tree, page);
    forall k {:trigger HasParent(shrunk, k)} | k in shrunk.tables ensures HasParent(shrunk, k) {
      assert HasParent(tree, k);
    }
    NoneBelowLeaves(tree, Key(1, page / ENTRIES), page % ENTRIES);
    hide Linked, LinksPermit, LinkTo;
    PageLinks(tree, shrunk, mem, page, Unused);
    WritePermits(tree.tables, mem, Key(1, page / ENTRIES), page % ENTRIES, Unused);
  }

  lemma TableRemovedShape(tree: Tree, child: Key)
    requires Closed(tree) && Distinct(tree) && child in tree.tables && child.level < 4 && Childless(tree, child)
    ensures Closed(WithoutTable(tree, child)) && Distinct(WithoutTable(tree, child))
  {
    var shrunk := WithoutTable(tree, child);
    forall k {:trigger HasParent(shrunk, k)} | k in shrunk.tables ensures HasParent(shrunk, k) {
      assert HasParent(tree, k);
    }
  }

  lemma TableRemoved(tree: Tree, mem: Tables, key: Key, index: nat)
    requires TreeOk(tree, mem) && key in tree.tables && 2 <= key.level && InWindow(key, index)
    requires Child(key, index) in tree.tables && Childless(tree, Child(key, index))
    requires LinkOk(tree, mem, key, index)
    ensures TreeOk(WithoutTable(tree, Child(key, index)),
                   WithEntry(mem[tree.tables[Child(key, index)] := ZERO_TABLE], tree.tables[key], index, Unused))
  {
    var child := Child(key, index);
    var shrunk := WithoutTable(tree, child);
    var after := WithEntry(mem[tree.tables[child] := ZERO_TABLE], tree.tables[key], index, Unused);
    assert HasParent(tree, key);
    TableRemovedShape(tree, child);
    TableRemovedPermits(tree, mem, key, index);
    hide LinksPermit;
    forall k, i {:trigger LinkOk(shrunk, after, k, i)} | k in shrunk.tables && InWindow(k, i) && 1 <= k.level
      ensures LinkOk(shrunk, after, k, i)
    {
      assert LinkOk(tree, mem, k, i);
      if k.level >= 2 && Child(k, i) == child {
        ChildrenDiffer(k, i, key, index);
      } else {
        LinkKept(tree, shrunk, mem, after, k, i);
      }
    }
  }
}
