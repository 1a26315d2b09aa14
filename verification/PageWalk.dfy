/** The walk the processor makes through the page tables, and what it finds for each page. */
module PageWalk {
  import opened Machine
  import opened PageTree
  import opened PageTreeCut
  import opened AddressSpace

  /** Where a page lies and what a user program may do with it. */
  datatype Translation = Translation(frame: nat, writable: bool, user: bool, executable: bool)

  function Slot(mem: Tables, table: nat, index: nat): Entry {
    if table in mem && index < |mem[table]| then mem[table][index] else Unused
  }

  /** What four present entries grant together: a right to write or of user access that all of them
      give, and execution that none of them forbids. */
  function Granted(e4: Entry, e3: Entry, e2: Entry, e1: Entry): Translation
    requires e4.Link? && e3.Link? && e2.Link? && e1.Link?
  {
    Translation(e1.frame,
                Writable in e4.flags * e3.flags * e2.flags * e1.flags,
                UserAccessible in e4.flags * e3.flags * e2.flags * e1.flags,
                NoExecute !in e4.flags + e3.flags + e2.flags + e1.flags)
  }

  /** The walk for the page with number `page` below its top-level entry. */
  function Descend(mem: Tables, e4: Entry, page: nat): Option<Translation> {
    if e4.Unused? then None else
    var e3 := Slot(mem, e4.frame, page / 0x40000 % 512);
    if e3.Unused? then None else
    var e2 := Slot(mem, e3.frame, page / 0x200 % 512);
    if e2.Unused? then None else
    var e1 := Slot(mem, e2.frame, page % 512);
    if e1.Unused? then None else Some(Granted(e4, e3, e2, e1))
  }

  /** The four-level walk. */
  function Translate(mem: Tables, root: nat, page: nat): Option<Translation> {
    Descend(mem, Slot(mem, root, page / 0x8000000 % 512), page)
  }

  /** The page numbers whose root slot lies in the process window. */
  predicate InProcessWindow(page: nat) {
    128 <= page / 0x8000000 < 256
  }

  lemma Shifts(page: nat)
    ensures Up(page, 1) == page / 0x200 && Up(page, 2) == page / 0x40000 && Up(page, 3) == page / 0x8000000
  {
    assert Up(page, 1) == Up(page, 0) / ENTRIES && Up(page, 2) == Up(page, 1) / ENTRIES && Up(page, 3) == Up(page, 2) / ENTRIES;
  }

  /** One step of the walk: the entry leads to the child table if the tree has one. */
  lemma WalkStep(tree: Tree, mem: Tables, key: Key, index: nat)
    requires TreeOk(tree, mem) && key in tree.tables && InWindow(key, index) && 1 <= key.level
    ensures var entry := Slot(mem, tree.tables[key], index);
            && LinkOk(tree, mem, key, index) && LinkPermits(tree.tables, mem, key, index)
            && entry == StoredEntry(tree.tables, mem, key, index)
            && (2 <= key.level ==> (entry.Link? <==> Child(key, index) in tree.tables))
            && (2 <= key.level && entry.Link? ==> entry.frame == tree.tables[Child(key, index)] && NoExecute !in entry.flags)
            && (2 <= key.level ==> LinkTo(tree.tables, mem, Child(key, index)) == entry)
  {
    assert LinkOk(tree, mem, key, index) && LinkPermits(tree.tables, mem, key, index);
    if 2 <= key.level {
      ChildOfParent(key, index);
    }
  }

  /** The processor sees a page of the window exactly where the tree maps one, in the mapped frame and
      with the rights of the mapping, whatever stands in the links above it. */
  lemma TranslatesAsTree(tree: Tree, mem: Tables, page: nat)
    requires TreeOk(tree, mem) && InProcessWindow(page)
    ensures Translate(mem, tree.tables[ROOT_KEY], page)
         == if page in tree.pages then
              var m := tree.pages[page];
              Some(Translation(m.frame, Writable in m.flags, UserAccessible in m.flags, NoExecute !in m.flags))
            else None
  {
    hide TreeOk, LinkTo, StoredEntry, Closed;
    Shifts(page);
    WalkKeys(page);
    Ancestors(tree, mem, page);
    hide Up;
    var key3, key2, key1 := Key(3, Up(page, 3)), Key(2, Up(page, 2)), Key(1, Up(page, 1));
    WalkStep(tree, mem, ROOT_KEY, Up(page, 3));
    if key3 in tree.tables {
      WalkStep(tree, mem, key3, Up(page, 2) % ENTRIES);
      if key2 in tree.tables {
        WalkStep(tree, mem, key2, Up(page, 1) % ENTRIES);
        if key1 in tree.tables {
          WalkStep(tree, mem, key1, page % ENTRIES);
          PageSlot(page, page / ENTRIES, page % ENTRIES);
        }
      }
    }
  }

  lemma Ancestors(tree: Tree, mem: Tables, page: nat)
    requires TreeOk(tree, mem)
    ensures ROOT_KEY in tree.tables
    ensures page in tree.pages ==> forall level :: 1 <= level <= 3 ==> Key(level, Up(page, level)) in tree.tables
  {
    if page in tree.pages {
      PageAncestor(tree, page, 1);
      PageAncestor(tree, page, 2);
      PageAncestor(tree, page, 3);
    }
  }
}
