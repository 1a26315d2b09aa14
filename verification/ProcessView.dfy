/** What the processor lets user programs reach, for every table of processes in order. */
module ProcessView {
  import opened Machine
  import opened FrameAllocator
  import opened PageTree
  import opened AddressSpace
  import opened PageWalk
  import opened UserHeaps
  import opened UserMappings
  import opened Processes
  import opened ProcessTables

  /** What the processor finds for `page` while the process runs. */
  ghost function Seen(p: UserProcess, page: nat): Option<Translation>
    reads p, p.space, p.space.memory
  {
    Translate(p.space.memory.tables, p.space.root, page)
  }

  lemma SeenIsMapped(p: UserProcess, page: nat)
    requires p.Valid() && InProcessWindow(page)
    ensures var pages := p.space.tree.pages;
            Seen(p, page)
            == if page in pages then
                 Some(Translation(pages[page].frame, Writable in pages[page].flags, UserAccessible in pages[page].flags,
                                  NoExecute !in pages[page].flags))
               else None
  {
    hide TreeOk, Translate;
    TranslatesAsTree(p.space.tree, p.space.memory.tables, page);
  }

  /** The processor lets no process write where it may execute. */
  lemma NeverWriteAndExecute(p: UserProcess, page: nat)
    requires p.Valid() && InProcessWindow(page)
    ensures Seen(p, page).Some? ==> !(Seen(p, page).value.writable && Seen(p, page).value.executable)
  {
    hide Seen, UserAddressSpace.Valid;
    SeenIsMapped(p, page);
    assert page in p.space.tree.pages ==> WriteOrExecute(p.space.tree.pages[page].flags);
  }

  /** Every heap address below the break can be read and written by the program, and not executed. */
  lemma HeapUsable(p: UserProcess, address: nat)
    requires p.Valid() && p.heap.base * PAGE_SIZE <= address < p.heap.currentBreak
    ensures var seen := Seen(p, address / PAGE_SIZE);
            seen.Some? && seen.value.writable && seen.value.user && !seen.value.executable
  {
    hide Seen, UserAddressSpace.Valid, Banded;
    var page := address / PAGE_SIZE;
    assert Within(page, p.heap.base, p.heap.mappedEnd);
    assert page in p.space.tree.pages && DataPage(p.space.tree.pages[page]);
    SeenIsMapped(p, page);
  }

  /** Two pages that the processor finds, in one process or in two, never share a frame. */
  lemma NoSharedFrames(ps: Tasks, origins: Origins, memory: PhysicalMemory, pool: PhysicalFrameAllocator,
                       a: nat, page: nat, b: nat, other: nat)
    requires InOrder(ps, origins, memory, pool) && a in ps && b in ps && (a != b || page != other)
    requires InProcessWindow(page) && InProcessWindow(other)
    ensures Seen(ps[a], page).Some? && Seen(ps[b], other).Some? ==>
              Seen(ps[a], page).value.frame != Seen(ps[b], other).value.frame
  {
    hide Seen, UserProcess.Valid, FramesOf, Intact;
    SeenIsMapped(ps[a], page);
    SeenIsMapped(ps[b], other);
    var left, right := ps[a].space, ps[b].space;
    if page in left.tree.pages && other in right.tree.pages {
      PageInFrames(left.tree, page);
      PageInFrames(right.tree, other);
      if a == b {
        SpaceOf(ps[a]);
        left.FramesDiffer(page, other);
      } else {
        assert Separate(ps[a], ps[b]);
      }
    }
  }

  /** No process can reach a page table, its own or another's. */
  lemma TablesOutOfReach(ps: Tasks, origins: Origins, memory: PhysicalMemory, pool: PhysicalFrameAllocator,
                         a: nat, page: nat, b: nat, key: Key)
    requires InOrder(ps, origins, memory, pool) && a in ps && b in ps && key in ps[b].space.tree.tables
    requires InProcessWindow(page)
    ensures Seen(ps[a], page).Some? ==> Seen(ps[a], page).value.frame != ps[b].space.tree.tables[key]
  {
    hide Seen, UserProcess.Valid, FramesOf, Intact;
    SeenIsMapped(ps[a], page);
    if page in ps[a].space.tree.pages {
      PageInFrames(ps[a].space.tree, page);
      TableInFrames(ps[b].space.tree, key);
      SpaceOf(ps[a]);
      assert a != b ==> Separate(ps[a], ps[b]);
    }
  }

  /** Outside the window every process sees what the kernel entries it was started with lead to, */
  lemma KernelSeen(ps: Tasks, origins: Origins, memory: PhysicalMemory, pool: PhysicalFrameAllocator, id: nat, page: nat)
    requires InOrder(ps, origins, memory, pool) && id in ps && !(128 <= page / 0x8000000 % 512 < 256)
    ensures id in origins && page / 0x8000000 % 512 < |origins[id].program.active|
    ensures Seen(ps[id], page) == Descend(memory.tables, origins[id].program.active[page / 0x8000000 % 512], page)
  {
    hide Intact, Descend, UserProcess.Valid, TreeOk, Owned;
    SpaceOf(ps[id]);
  }

  /** so processes started with the same entries see the same kernel, whatever they did since. */
  lemma SameKernel(ps: Tasks, origins: Origins, memory: PhysicalMemory, pool: PhysicalFrameAllocator,
                   a: nat, b: nat, page: nat)
    requires InOrder(ps, origins, memory, pool) && a in ps && b in ps && !(128 <= page / 0x8000000 % 512 < 256)
    requires a in origins && b in origins && origins[a].program.active == origins[b].program.active
    ensures Seen(ps[a], page) == Seen(ps[b], page)
  {
    hide InOrder, Seen, Descend;
    KernelSeen(ps, origins, memory, pool, a, page);
    KernelSeen(ps, origins, memory, pool, b, page);
  }

  lemma SpaceOf(p: UserProcess)
    requires p.Valid()
    ensures p.space.Valid()
  {
  }
}
