/** Many processes over one frame allocator: any of them may be started, run, replaced or ended
    without disturbing the others. */
module ProcessTables {
  import opened Machine
  import opened LittleEndian
  import opened FrameTable
  import opened FrameMap
  import opened FrameAllocator
  import opened CanonicalRanges
  import opened PageTree
  import opened AddressSpace
  import opened Reclaim
  import opened MappingRecords
  import opened UserMappings
  import opened UserHeaps
  import opened Elf
  import opened ElfLoader
  import opened StackImage
  import opened EntryReader
  import opened StackRoundTrip
  import opened StackPlacements
  import opened Processes
  import opened Execves

  // ---------------------------------------------------------------- bystanders

  /** The frame map and the contents of physical memory at one time. */
  datatype World = World(view: Frames, tables: Tables, bytes: map<nat, Bytes>)

  ghost function Outside(w: World, mine: set<nat>): Surroundings {
    Surrounding(Released(w.view, mine), w.tables, w.bytes)
  }

  /** One holder of frames changed from `mine` to `mine'` and left its surroundings alone. */
  ghost predicate Changed(w: World, mine: set<nat>, w': World, mine': set<nat>) {
    Outside(w', mine') == Outside(w, mine)
  }

  ghost function Now(memory: PhysicalMemory, pool: PhysicalFrameAllocator): World
    requires pool.InBounds()
    reads memory, pool, pool.tracked
  {
    World(pool.View(), memory.tables, memory.bytes)
  }

  lemma SpaceOutside(space: UserAddressSpace)
    requires space.Valid()
    ensures space.pool.Valid()
    ensures space.Around() == Outside(Now(space.memory, space.pool), FramesOf(space.tree))
    ensures space.Steady() == (space.Around(), ImageOf(space.tree.pages, space.memory.bytes))
  {
    hide TreeOk, Owned, TableOk, Canonical, Released, Kept, FramesOf, ImageOf;
  }

  /** A frame somebody else holds keeps its record and its contents. */
  lemma FrameUntouched(w: World, mine: set<nat>, w': World, mine': set<nat>, frame: nat)
    requires Changed(w, mine, w', mine')
    requires frame in w.view && w.view[frame] != FREE && frame !in mine
    ensures frame in w'.view && w'.view[frame] == w.view[frame] && frame !in mine'
    ensures frame in w.tables ==> frame in w'.tables && w'.tables[frame] == w.tables[frame]
    ensures frame in w.bytes <==> frame in w'.bytes
    ensures frame in w.bytes ==> w'.bytes[frame] == w.bytes[frame]
  {
    var base := Released(w.view, mine);
    assert base == Released(w'.view, mine');
    assert frame in base && base[frame] == w.view[frame];
    assert frame in w.tables <==> frame in Kept(w.tables, base);
    assert frame in w'.tables <==> frame in Kept(w'.tables, base);
    assert frame in w.bytes <==> frame in Kept(w.bytes, base);
    assert frame in w'.bytes <==> frame in Kept(w'.bytes, base);
  }

  /** The tree of another address space survives the change. */
  lemma TreeUntouched(tree: Tree, w: World, mine: set<nat>, w': World, mine': set<nat>)
    requires Changed(w, mine, w', mine')
    requires TreeOk(tree, w.tables) && Owned(tree, w.view) && FramesOf(tree) !! mine
    ensures TreeOk(tree, w'.tables) && Owned(tree, w'.view) && FramesOf(tree) !! mine'
  {
    hide Changed, FramesOf;
    forall key | key in tree.tables
      ensures tree.tables[key] in w'.view && w'.view[tree.tables[key]] == TABLE_INFO
      ensures tree.tables[key] in w.tables ==>
                tree.tables[key] in w'.tables && w'.tables[tree.tables[key]] == w.tables[tree.tables[key]]
    {
      TableInFrames(tree, key);
      FrameUntouched(w, mine, w', mine', tree.tables[key]);
    }
    forall page | page in tree.pages ensures PageOwned(w'.view, tree.pages[page]) {
      PageInFrames(tree, page);
      FrameUntouched(w, mine, w', mine', tree.pages[page].frame);
    }
    LinksUntouched(tree, w.tables, w'.tables);
    forall frame | frame in FramesOf(tree) ensures frame !in mine' {
      OwnedFrame(tree, w.view, frame);
      FrameUntouched(w, mine, w', mine', frame);
    }
  }

  /** So do the bytes of its program image and its stack. */
  lemma ImageUntouched(tree: Tree, w: World, mine: set<nat>, w': World, mine': set<nat>)
    requires Changed(w, mine, w', mine') && Owned(tree, w.view) && FramesOf(tree) !! mine
    ensures ImageOf(tree.pages, w'.bytes) == ImageOf(tree.pages, w.bytes)
  {
    hide Changed, FramesOf;
    forall page | page in tree.pages
      ensures tree.pages[page].frame in w.bytes <==> tree.pages[page].frame in w'.bytes
      ensures tree.pages[page].frame in w.bytes ==> w'.bytes[tree.pages[page].frame] == w.bytes[tree.pages[page].frame]
    {
      PageInFrames(tree, page);
      FrameUntouched(w, mine, w', mine', tree.pages[page].frame);
    }
  }

  lemma OwnedFrame(tree: Tree, view: Frames, frame: nat)
    requires Owned(tree, view) && frame in FramesOf(tree)
    ensures frame in view && view[frame] != FREE
  {
  }

  lemma LinksUntouched(tree: Tree, mem: Tables, mem': Tables)
    requires Linked(tree, mem) && LinksPermit(tree.tables, mem) && Closed(tree)
    requires forall key :: key in tree.tables ==>
               tree.tables[key] in mem ==> tree.tables[key] in mem' && mem'[tree.tables[key]] == mem[tree.tables[key]]
    ensures Linked(tree, mem') && LinksPermit(tree.tables, mem')
  {
    forall key, index | key in tree.tables && InWindow(key, index) && 1 <= key.level ensures LinkOk(tree, mem', key, index) {
      assert LinkOk(tree, mem, key, index);
    }
    forall key, index: nat | key in tree.tables && index < ENTRIES
      ensures StoredEntry(tree.tables, mem', key, index) == StoredEntry(tree.tables, mem, key, index)
    {
      TableStored(tree, mem, key);
    }
    forall key, index | key in tree.tables && InWindow(key, index) ensures LinkPermits(tree.tables, mem', key, index) {
      assert LinkPermits(tree.tables, mem, key, index) && HasParent(tree, key);
      assert key.level < 4 ==> LinkTo(tree.tables, mem', key) == LinkTo(tree.tables, mem, key);
    }
  }

  lemma TableStored(tree: Tree, mem: Tables, key: Key)
    requires Closed(tree) && Linked(tree, mem) && key in tree.tables
    ensures tree.tables[key] in mem
  {
    assert HasParent(tree, key) && InWindow(key, WINDOW_START) && LinkOk(tree, mem, key, WINDOW_START);
  }

  /** A process nobody wrote to stays valid and intact when another holder changes. */
  lemma ProcessUntouched(p: UserProcess, w: World, mine: set<nat>, mine': set<nat>)
    requires p.Shape() && p.space.pool.Valid() && SpaceWas(p.space, w)
    requires Changed(w, mine, Now(p.space.memory, p.space.pool), mine')
    requires FramesOf(p.space.tree) !! mine
    ensures p.Valid() && FramesOf(p.space.tree) !! mine'
    ensures ImageOf(p.space.tree.pages, p.space.memory.bytes) == ImageOf(p.space.tree.pages, w.bytes)
  {
    hide TreeOk, Owned, Changed, FramesOf, TableOk, Canonical, ImageOf, UserProcess.Shape, UserProcess.Valid;
    TreeUntouched(p.space.tree, w, mine, Now(p.space.memory, p.space.pool), mine');
    RootUntouched(p.space, w, mine, mine');
    ImageUntouched(p.space.tree, w, mine, Now(p.space.memory, p.space.pool), mine');
    p.ValidShape();
  }

  /** The kernel entries of its top-level table are untouched, too. */
  lemma RootUntouched(space: UserAddressSpace, w: World, mine: set<nat>, mine': set<nat>)
    requires SpaceWas(space, w) && space.pool.Valid() && FramesOf(space.tree) !! mine
    requires Changed(w, mine, Now(space.memory, space.pool), mine')
    ensures KernelKept(space.memory.tables, space.root, space.kernel)
  {
    hide Changed, FramesOf;
    TableInFrames(space.tree, ROOT_KEY);
    OwnedFrame(space.tree, w.view, space.root);
    FrameUntouched(w, mine, Now(space.memory, space.pool), mine', space.root);
  }

  /** The tree of `space` was in order in an earlier world. */
  ghost predicate SpaceWas(space: UserAddressSpace, w: World)
    reads space
  {
    && TreeOk(space.tree, w.tables) && space.tree.tables[ROOT_KEY] == space.root && Owned(space.tree, w.view)
    && KernelKept(w.tables, space.root, space.kernel)
  }

  // ---------------------------------------------------------------- processes side by side

  type Tasks = map<nat, UserProcess>

  /** What a process was started with, and where its vectors lie. */
  datatype Origin = Origin(program: Program, prepared: PreparedStack)

  type Origins = map<nat, Origin>

  ghost function ObjectsOf(ps: Tasks): set<object> {
    (set id | id in ps :: ps[id] as object) + (set id | id in ps :: ps[id].space as object)
    + (set id | id in ps :: ps[id].heap as object) + (set id | id in ps :: ps[id].mappings as object)
  }

  ghost predicate NewSpace(space: UserAddressSpace, ps: Tasks) {
    forall id :: id in ps ==> space != ps[id].space
  }

  ghost predicate NotAmong(p: UserProcess, ps: Tasks) {
    NewSpace(p.space, ps) && forall id :: id in ps ==> p.heap != ps[id].heap && p.mappings != ps[id].mappings
  }

  lemma ObjectsApart(p: UserProcess, ps: Tasks, memory: PhysicalMemory, pool: PhysicalFrameAllocator)
    requires NotAmong(p, ps)
    ensures forall o :: o in ObjectsOf(ps) ==> o !in {p.space, p.heap, p.mappings, memory, pool, pool.tracked}
  {
  }

  lemma SpaceApart(space: UserAddressSpace, ps: Tasks, memory: PhysicalMemory, pool: PhysicalFrameAllocator)
    requires NewSpace(space, ps)
    ensures forall o :: o in ObjectsOf(ps) ==> o !in {space, memory, pool, pool.tracked}
  {
  }

  lemma ObjectsNotShared(ps: Tasks, memory: PhysicalMemory, pool: PhysicalFrameAllocator)
    ensures forall o :: o in ObjectsOf(ps) ==> o !in {memory, pool, pool.tracked}
  {
  }

  ghost predicate Separate(p: UserProcess, q: UserProcess)
    reads p.space, q.space
  {
    && p.space != q.space && p.heap != q.heap && p.mappings != q.mappings
    && FramesOf(p.space.tree) !! FramesOf(q.space.tree)
  }

  ghost predicate AllSeparate(ps: Tasks)
    reads ObjectsOf(ps)
  {
    forall i, j :: i in ps && j in ps && i != j ==> Separate(ps[i], ps[j])
  }

  /** No process holds a frame of `mine`. */
  ghost predicate Clear(ps: Tasks, mine: set<nat>)
    reads ObjectsOf(ps)
  {
    forall id :: id in ps ==> FramesOf(ps[id].space.tree) !! mine
  }

  ghost predicate Share(ps: Tasks, memory: PhysicalMemory, pool: PhysicalFrameAllocator) {
    forall id :: id in ps ==> ps[id].space.memory == memory && ps[id].space.pool == pool
  }

  ghost predicate AllValid(ps: Tasks, memory: PhysicalMemory, pool: PhysicalFrameAllocator)
    reads ObjectsOf(ps), memory, pool, pool.tracked
  {
    Share(ps, memory, pool) && (forall id :: id in ps ==> ps[id].Valid())
  }

  /** Every process still has the image and the vectors it was started with. */
  ghost predicate AllIntact(ps: Tasks, origins: Origins, bytes: map<nat, Bytes>)
    reads ObjectsOf(ps)
  {
    forall id :: id in ps ==>
      id in origins && StartedFrom(ps[id].space, bytes, origins[id].program, origins[id].prepared)
  }

  /** Every process is valid, apart from the others, and intact. */
  ghost predicate InOrder(ps: Tasks, origins: Origins, memory: PhysicalMemory, pool: PhysicalFrameAllocator)
    reads ObjectsOf(ps), memory, pool, pool.tracked
  {
    AllValid(ps, memory, pool) && AllSeparate(ps) && AllIntact(ps, origins, memory.bytes)
  }

  /** Every process was in order in an earlier world. */
  ghost predicate AllWere(ps: Tasks, w: World)
    reads ObjectsOf(ps)
  {
    forall id :: id in ps ==> ps[id].Shape() && SpaceWas(ps[id].space, w)
  }

  /** The bystanders of a change: in order before it, apart from each other and from the frames
      that change hands. */
  ghost predicate Aside(ps: Tasks, origins: Origins, w: World, mine: set<nat>)
    reads ObjectsOf(ps)
  {
    AllWere(ps, w) && AllSeparate(ps) && AllIntact(ps, origins, w.bytes) && Clear(ps, mine)
  }

  lemma Snapshot(ps: Tasks, origins: Origins, memory: PhysicalMemory, pool: PhysicalFrameAllocator, mine: set<nat>)
    requires pool.Valid() && InOrder(ps, origins, memory, pool) && Clear(ps, mine)
    ensures Share(ps, memory, pool) && Aside(ps, origins, Now(memory, pool), mine)
  {
    hide TreeOk, Owned, TableOk, Canonical, Intact, ImageOf, UserProcess.Shape;
    forall id | id in ps ensures ps[id].Shape() && SpaceWas(ps[id].space, Now(memory, pool)) {
      ps[id].ValidShape();
    }
  }

  /** Bystanders stay valid and intact when one holder changes. */
  lemma AllUntouched(ps: Tasks, origins: Origins, memory: PhysicalMemory, pool: PhysicalFrameAllocator,
                     w: World, mine: set<nat>, mine': set<nat>)
    requires pool.Valid() && Share(ps, memory, pool) && Aside(ps, origins, w, mine)
    requires Changed(w, mine, Now(memory, pool), mine')
    ensures InOrder(ps, origins, memory, pool) && Clear(ps, mine')
  {
    hide Changed, FramesOf, TableOk, Canonical, UserProcess.Shape, UserProcess.Valid, SpaceWas, Intact, ImageOf;
    forall id | id in ps
      ensures ps[id].Valid() && FramesOf(ps[id].space.tree) !! mine'
      ensures ImageOf(ps[id].space.tree.pages, memory.bytes) == ImageOf(ps[id].space.tree.pages, w.bytes)
    {
      ProcessUntouched(ps[id], w, mine, mine');
    }
  }

  /** What each process maps, and where. */
  ghost function Trees(ps: Tasks): map<nat, Tree>
    reads ObjectsOf(ps)
  {
    map id | id in ps :: ps[id].space.tree
  }

  /** Every process but `id` is the same and maps the same pages to the same frames. */
  ghost predicate SameBut(id: nat, before: Tasks, after: Tasks, trees: map<nat, Tree>, trees': map<nat, Tree>) {
    before - {id} == after - {id} && trees - {id} == trees' - {id}
  }

  lemma SameButItself(id: nat, ps: Tasks, trees: map<nat, Tree>)
    ensures SameBut(id, ps, ps, trees, trees)
  {
  }

  lemma TreesBut(ps: Tasks, id: nat, q: UserProcess)
    ensures Trees(ps[id := q]) - {id} == Trees(ps) - {id} && ps[id := q] - {id} == ps - {id}
  {
  }

  lemma TreesWithout(ps: Tasks, id: nat)
    ensures Trees(ps - {id}) == Trees(ps) - {id}
  {
  }

  ghost function AllFrames(trees: map<nat, Tree>): set<nat> {
    set id, frame | id in trees && frame in FramesOf(trees[id]) :: frame
  }

  ghost function HeldBy(ps: Tasks): set<nat>
    reads ObjectsOf(ps)
  {
    AllFrames(Trees(ps))
  }

  lemma HeldByMore(ps: Tasks, id: nat, p: UserProcess)
    requires id !in ps
    ensures HeldBy(ps[id := p]) == FramesOf(p.space.tree) + HeldBy(ps)
  {
    hide FramesOf;
    assert Trees(ps[id := p]) == Trees(ps)[id := p.space.tree];
    MoreFrames(Trees(ps), id, p.space.tree);
  }

  lemma MoreFrames(trees: map<nat, Tree>, id: nat, tree: Tree)
    requires id !in trees
    ensures AllFrames(trees[id := tree]) == FramesOf(tree) + AllFrames(trees)
  {
    hide FramesOf;
    var more := trees[id := tree];
    forall frame ensures frame in AllFrames(more) <==> frame in FramesOf(tree) + AllFrames(trees) {
      if frame in FramesOf(tree) {
        assert id in more && frame in FramesOf(more[id]);
      }
      if frame in AllFrames(trees) {
        var other :| other in trees && frame in FramesOf(trees[other]);
        assert other in more && frame in FramesOf(more[other]);
      }
    }
  }

  /** A process joins others whose frames and objects it does not share. */
  lemma Joins(ps: Tasks, origins: Origins, id: nat, p: UserProcess, origin: Origin, memory: PhysicalMemory,
              pool: PhysicalFrameAllocator)
    requires id !in ps && InOrder(ps, origins, memory, pool)
    requires p.space.memory == memory && p.space.pool == pool && p.Valid()
    requires NotAmong(p, ps) && Clear(ps, FramesOf(p.space.tree))
    requires StartedFrom(p.space, memory.bytes, origin.program, origin.prepared)
    ensures InOrder(ps[id := p], origins[id := origin], memory, pool)
  {
    hide FramesOf, UserProcess.Valid, Intact, ImageOf;
  }

  lemma ProcessSpace(p: UserProcess)
    requires p.Valid()
    ensures p.space.Valid()
  {
    hide UserAddressSpace.Valid, HeapPages, RecordsOk, Agree, Banded;
  }

  lemma Leaves(ps: Tasks, origins: Origins, id: nat, memory: PhysicalMemory, pool: PhysicalFrameAllocator)
    requires id in ps && InOrder(ps, origins, memory, pool)
    ensures InOrder(ps - {id}, origins, memory, pool) && InOrder(ps - {id}, origins - {id}, memory, pool)
    ensures NotAmong(ps[id], ps - {id}) && Clear(ps - {id}, FramesOf(ps[id].space.tree))
    ensures id !in ps - {id} && (ps - {id})[id := ps[id]] == ps
    ensures ps[id].space.memory == memory && ps[id].space.pool == pool && ps[id].Valid()
    ensures ps[id].space.Valid() && NewSpace(ps[id].space, ps - {id})
    ensures id in origins && origins[id := origins[id]] == origins
    ensures StartedFrom(ps[id].space, memory.bytes, origins[id].program, origins[id].prepared)
  {
    hide FramesOf, UserProcess.Valid, Intact, ImageOf;
    ProcessSpace(ps[id]);
    forall other | other in ps - {id}
      ensures ps[id].space != ps[other].space && FramesOf(ps[other].space.tree) !! FramesOf(ps[id].space.tree)
      ensures ps[id].heap != ps[other].heap && ps[id].mappings != ps[other].mappings
    {
      assert Separate(ps[other], ps[id]);
    }
  }

  lemma ReleasedBoth(view: Frames, mine: set<nat>, others: set<nat>)
    ensures Released(view, mine + others) == Released(Released(view, mine), others)
  {
  }

  lemma KeptLess<T>(contents: map<nat, T>, contents': map<nat, T>, base: Frames, others: set<nat>)
    requires Kept(contents, base) == Kept(contents', base)
    ensures Kept(contents, Released(base, others)) == Kept(contents', Released(base, others))
  {
    var less := Released(base, others);
    forall frame
      ensures frame in Kept(contents, less) <==> frame in Kept(contents', less)
      ensures frame in Kept(contents, less) ==> Kept(contents, less)[frame] == Kept(contents', less)[frame]
    {
      assert frame in Kept(contents, base) <==> frame in Kept(contents', base);
      assert frame in Kept(contents, base) ==> Kept(contents, base)[frame] == Kept(contents', base)[frame];
    }
  }

  /** What lies outside everybody's frames stays as it is when one holder changes. */
  lemma RestKept(w: World, mine: set<nat>, w': World, mine': set<nat>, others: set<nat>)
    requires Changed(w, mine, w', mine')
    ensures Outside(w', mine' + others) == Outside(w, mine + others)
  {
    hide Released, Kept;
    ReleasedBoth(w.view, mine, others);
    ReleasedBoth(w'.view, mine', others);
    KeptLess(w.tables, w'.tables, Released(w.view, mine), others);
    KeptLess(w.bytes, w'.bytes, Released(w.view, mine), others);
  }

  // ---------------------------------------------------------------- the table

  class ProcessTable {
    const memory: PhysicalMemory
    const pool: PhysicalFrameAllocator
    var processes: Tasks
    /** What each process was started with. */
    ghost var origins: Origins

    ghost predicate Valid()
      reads this, ObjectsOf(processes), memory, pool, pool.tracked
    {
      pool.Valid() && InOrder(processes, origins, memory, pool)
    }

    /** The frame map once every process has ended, and the contents of the frames then in use. */
    ghost function Rest(): Surroundings
      requires Valid()
      reads this, ObjectsOf(processes), memory, pool, pool.tracked
    {
      Outside(Now(memory, pool), HeldBy(processes))
    }

    /** Who runs, and what each of them was started from. */
    ghost function Programs(): map<nat, Program>
      reads this
    {
      ProgramsOf(processes, origins)
    }

    /** No process yet. */
    constructor (memory: PhysicalMemory, pool: PhysicalFrameAllocator)
      requires pool.Valid()
      ensures Valid() && processes == map[] && Rest() == Surrounding(pool.View(), memory.tables, memory.bytes)
      ensures this.memory == memory && this.pool == pool && Programs() == map[]
    {
      this.memory := memory;
      this.pool := pool;
      processes := map[];
      origins := map[];
      new;
      NothingHeld();
    }

    lemma NothingHeld()
      requires Valid() && processes == map[]
      ensures Rest() == Surrounding(pool.View(), memory.tables, memory.bytes)
    {
      assert Trees(processes) == map[];
      assert HeldBy(processes) == {};
      ReleasedNothing(pool.View());
    }

    lemma ProgramsKeys()
      requires Valid()
      ensures Programs().Keys == processes.Keys
    {
    }

    /** A process that asks for a new image with the vector pointers it was started with, and whose
        stack still holds what the kernel put there, passes its own vectors on. */
    lemma OwnVectors(id: nat, user: UserMemory)
      requires Valid() && id in processes && Reads(user, ImageOf(processes[id].space.tree.pages, memory.bytes))
      ensures id in origins
      ensures var origin := origins[id];
              ReadStaging(user, origin.prepared.argumentArray, origin.prepared.environmentArray)
              == EntryReader.Ok(StagingOf(origin.program.arguments, origin.program.environment))
    {
      hide ImageOf, LoadedIn, ArgumentsShown, StagingOf, Reads, AllValid, AllSeparate, ReadStaging;
      var origin := origins[id];
      ProcessReadsArguments(user, ImageOf(processes[id].space.tree.pages, memory.bytes), origin.program.slot,
                            origin.program.stackPages, origin.prepared,
                            StagingOf(origin.program.arguments, origin.program.environment));
    }

    /** So the image it asks for starts with the vectors it was itself started with. */
    lemma PassesVectorsOn(id: nat, call: Execve)
      requires Valid() && id in processes && Reads(call.user, ImageOf(processes[id].space.tree.pages, memory.bytes))
      requires call.argumentArray == origins[id].prepared.argumentArray
      requires call.environmentArray == origins[id].prepared.environmentArray
      requires Requested(call).Granted?
      ensures ProgramOf(call).arguments == origins[id].program.arguments
      ensures ProgramOf(call).environment == origins[id].program.environment
    {
      hide InOrder, Reads, ImageOf, Requested, ProgramOf, ReadStaging;
      OwnVectors(id, call.user);
      RequestedVectors(call, StagingOf(origins[id].program.arguments, origins[id].program.environment));
    }

    /** One memory call of one process. */
    method Perform(id: nat, call: Call) returns (r: Outcome<Answer>)
      requires Valid() && id in processes
      modifies processes[id].space, processes[id].heap, processes[id].mappings, memory, pool`count, pool.tracked
      ensures r.Panic? ==> pool.Exhausted(r.reason)
      ensures r.Done? ==> Valid() && Rest() == old(Rest())
      ensures r.Done? ==> Effect(processes[id].heap.base, call, old(processes[id].Owns()), processes[id].Owns(), r.value)
      ensures r.Done? ==> SameBut(id, old(processes), processes, old(Trees(processes)), Trees(processes))
    {
      hide FramesOf, TableOk, Canonical, AllFrames, Trees, InOrder, Clear, Share, Aside, Outside, Released, NotAmong, ObjectsOf;
      hide UserProcess.Valid, UserAddressSpace.Valid, UserAddressSpace.Around, UserAddressSpace.Steady, Intact, ImageOf;
      Leaves(processes, origins, id, memory, pool);
      var p := processes[id];
      ghost var others := processes - {id};
      ghost var w, mine, held := Now(memory, pool), FramesOf(p.space.tree), HeldBy(others);
      Snapshot(others, origins, memory, pool, mine);
      HeldByMore(others, id, p);
      SpaceOutside(p.space);
      TreesWithout(processes, id);
      r := PerformAside(p, call, others, origins, w, mine);
      if r.Done? {
        TreesWithout(processes, id);
        ProcessSpace(p);
        SpaceOutside(p.space);
        ghost var mine' := FramesOf(p.space.tree);
        AllUntouched(others, origins, memory, pool, w, mine, mine');
        Joins(others, origins, id, p, origins[id], memory, pool);
        HeldByMore(others, id, p);
        RestKept(w, mine, Now(memory, pool), mine', held);
      }
    }

    /** End a process and give back all it holds. */
    method End(id: nat) returns (r: Outcome<Reclaimed>)
      requires Valid() && id in processes
      modifies this, processes[id].space, memory`tables, pool`count, pool.tracked
      ensures r.Panic? ==> r.reason == TrackingCapacityExhausted && pool.Exhausted(r.reason)
      ensures r.Done? ==> Valid() && Rest() == old(Rest()) && processes == old(processes) - {id}
      ensures r.Done? ==> SameBut(id, old(processes), processes, old(Trees(processes)), Trees(processes)) && origins == old(origins)
      ensures r.Done? ==> Programs() == old(Programs()) - {id}
      ensures r.Done? ==> ObjectsOf(processes) <= old(ObjectsOf(processes))
    {
      hide FramesOf, TableOk, Canonical, AllFrames, Trees, InOrder, Clear, Share, Aside, Outside, Released, NotAmong, ObjectsOf;
      hide UserProcess.Valid, UserAddressSpace.Valid, UserAddressSpace.Around, UserAddressSpace.Steady, Intact, ImageOf;
      Leaves(processes, origins, id, memory, pool);
      var p := processes[id];
      ghost var others := processes - {id};
      ghost var w, mine, held := Now(memory, pool), FramesOf(p.space.tree), HeldBy(others);
      Snapshot(others, origins, memory, pool, mine);
      HeldByMore(others, id, p);
      SpaceOutside(p.space);
      TreesWithout(processes, id);
      r := DestroyAside(p.space, others, origins, w, mine);
      if r.Done? {
        AllUntouched(others, origins, memory, pool, w, mine, {});
        RestKept(w, mine, Now(memory, pool), {}, held);
        assert {} + held == held;
        NotTheTable(others, this);
        FewerObjects(processes, id);
        ProgramsLess(processes, origins, id);
        processes := processes - {id};
      }
    }

    /** Start a process; an image the validator refuses changes nothing. */
    method Start(id: nat, program: Program) returns (r: Outcome<bool>)
      requires Valid() && id !in processes && Startable(program)
      modifies this, memory, pool`count, pool.tracked
      ensures r.Panic? ==> BuildStops(program, r.reason) || pool.Exhausted(r.reason)
      ensures r.Done? ==> Valid() && Rest() == old(Rest()) && r.value == Metadata(program.image).Ok?
      ensures r.Done? && !r.value ==> processes == old(processes) && origins == old(origins)
      ensures r.Done? ==> Programs() == if r.value then old(Programs())[id := program] else old(Programs())
      ensures r.Done? && r.value ==>
                && id in processes && processes == old(processes)[id := processes[id]]
                && Placed(id, old(origins), origins, program)
                && fresh(processes[id].space) && HeapStarts(processes[id], program)
      ensures r.Done? ==> SameBut(id, old(processes), processes, old(Trees(processes)), Trees(processes))
      ensures r.Done? ==> fresh(ObjectsOf(processes) - old(ObjectsOf(processes)))
    {
      hide FramesOf, TableOk, Canonical, AllFrames, Trees, InOrder, Clear, Share, Aside, Outside, Released, NotAmong, ObjectsOf;
      hide UserProcess.Valid, UserAddressSpace.Valid, UserAddressSpace.Around, UserAddressSpace.Steady, Intact, ImageOf;
      hide Startable, BuildStops, Metadata, HeapStarts, ProgramsOf;
      if Metadata(program.image).Err? {
        return Done(false);
      }
      ghost var ps := processes;
      ClearOfNothing(ps);
      Snapshot(ps, origins, memory, pool, {});
      var built :- BuildTaken(memory, pool, program, ps, origins);
      var p, prepared := built.0, built.1;
      Joins(ps, origins, id, p, Origin(program, prepared), memory, pool);
      HeldByMore(ps, id, p);
      NotTheTable(ps[id := p], this);
      MoreObjects(ps, id, p);
      TreesBut(ps, id, p);
      ProgramsMore(ps, origins, id, p, Origin(program, prepared));
      assert ps - {id} == ps && ps[id := p] - {id} == ps;
      processes := processes[id := p];
      origins := origins[id := Origin(program, prepared)];
      return Done(true);
    }

    /** `execve`: read the path and the vectors from the caller's memory, build the candidate next to
        the running process, and, when the scheduler takes it, publish it in its place and give back
        the old address space; otherwise give back the candidate. What cannot be read, found or
        validated changes nothing. */
    method Replace(id: nat, call: Execve) returns (r: Outcome<Option<ExecveError>>)
      requires Valid() && id in processes && Runnable(call)
      modifies this, processes[id].space, memory, pool`count, pool.tracked
      ensures r.Panic? ==> ExecveStops(call, r.reason) || pool.Exhausted(r.reason)
      ensures r.Done? ==> Valid() && Rest() == old(Rest()) && r.value == Failure(call)
      ensures r.Done? ==> Programs() == if r.value.None? then old(Programs())[id := ProgramOf(call)] else old(Programs())
      ensures r.Done? && r.value.Some? ==>
                processes == old(processes) && origins == old(origins) && Trees(processes) == old(Trees(processes))
      ensures r.Done? && r.value.None? ==>
                && id in processes && processes == old(processes)[id := processes[id]]
                && Placed(id, old(origins), origins, ProgramOf(call))
                && fresh(processes[id].space) && HeapStarts(processes[id], ProgramOf(call))
      ensures r.Done? ==> SameBut(id, old(processes), processes, old(Trees(processes)), Trees(processes))
      ensures r.Done? ==> fresh(ObjectsOf(processes) - old(ObjectsOf(processes)))
    {
      hide FramesOf, TableOk, Canonical, AllFrames, Trees, InOrder, Clear, Share, Aside, Outside, Released, NotAmong, ObjectsOf;
      hide UserProcess.Valid, UserAddressSpace.Valid, UserAddressSpace.Around, UserAddressSpace.Steady, Intact, ImageOf;
      hide Metadata, SameBut, Requested, Runnable, ProgramOf, ProgramsOf, HeapStarts, ExecveStops, Failure, Startable, BlockFits;
      hide PhysicalFrameAllocator.Exhausted;
      SameButItself(id, processes, Trees(processes));
      FailureMeans(call);
      var requested := ReadAside(call);
      assert ObjectsOf(processes) == old(ObjectsOf(processes));
      if requested.Denied? {
        return Done(Some(requested.error));
      }
      if !call.published {
        var _ :- Abandon(call);
        return Done(Some(NotTaken));
      }
      var _ :- Install(id, call);
      return Done(None);
    }

    /** The new image in the place of the old one. */
    method Install(id: nat, call: Execve) returns (r: Outcome<()>)
      requires Valid() && id in processes && Runnable(call) && Requested(call).Granted? && call.published
      modifies this, processes[id].space, memory, pool`count, pool.tracked
      ensures r.Panic? ==> ExecveStops(call, r.reason) || pool.Exhausted(r.reason)
      ensures r.Done? ==> Valid() && Rest() == old(Rest()) && Programs() == old(Programs())[id := ProgramOf(call)]
      ensures r.Done? ==>
                && id in processes && processes == old(processes)[id := processes[id]]
                && Placed(id, old(origins), origins, ProgramOf(call))
                && fresh(processes[id].space) && HeapStarts(processes[id], ProgramOf(call))
      ensures r.Done? ==> SameBut(id, old(processes), processes, old(Trees(processes)), Trees(processes))
      ensures r.Done? ==> var p := processes[id];
                && fresh(p) && fresh(p.heap) && fresh(p.mappings)
                && ObjectsOf(processes) <= old(ObjectsOf(processes)) + {p, p.space, p.heap, p.mappings}
    {
      hide FramesOf, TableOk, Canonical, AllFrames, Trees, InOrder, Clear, Share, Aside, Outside, Released, NotAmong, ObjectsOf;
      hide UserProcess.Valid, UserAddressSpace.Valid, UserAddressSpace.Around, UserAddressSpace.Steady, Intact, ImageOf;
      hide Metadata, SameBut, Requested, Runnable, ProgramOf, ProgramsOf, HeapStarts, ExecveStops;
      hide PhysicalFrameAllocator.Exhausted;
      var built :- BuildOver(call);
      r := Publish(id, built.0, Origin(ProgramOf(call), built.1), old(Rest()));
    }

    /** Reading the request changes nothing. */
    method ReadAside(call: Execve) returns (requested: Execves.Request)
      requires Valid()
      ensures requested == Requested(call) && (requested.Denied? ==> Failure(call) == Some(requested.error))
      ensures Valid() && Rest() == old(Rest()) && Trees(processes) == old(Trees(processes))
    {
      hide InOrder, TableOk, Canonical, Trees, Outside, AllFrames, Requested;
      ObjectsNotShared(processes, memory, pool);
      requested := ReadRequest(call);
    }

    /** Build the image a call asks for next to everybody. */
    method BuildOver(call: Execve) returns (r: Outcome<(UserProcess, PreparedStack)>)
      requires Valid() && Runnable(call) && Requested(call).Granted? && call.published
      modifies memory, pool`count, pool.tracked
      ensures r.Panic? ==> ExecveStops(call, r.reason) || pool.Exhausted(r.reason)
      ensures r.Done? ==> var p := r.value.0;
                && fresh(p) && fresh(p.space) && fresh(p.heap) && fresh(p.mappings) && p.Valid() && HeapStarts(p, ProgramOf(call))
                && p.space.memory == memory && p.space.pool == pool && NotAmong(p, processes)
                && StartedFrom(p.space, memory.bytes, ProgramOf(call), r.value.1)
      ensures r.Done? ==>
                pool.Valid() && InOrder(processes, origins, memory, pool) && Clear(processes, FramesOf(r.value.0.space.tree))
      ensures r.Done? ==> Trees(processes) == old(Trees(processes))
      ensures r.Done? ==> Outside(Now(memory, pool), FramesOf(r.value.0.space.tree) + HeldBy(processes)) == old(Rest())
    {
      hide FramesOf, TableOk, Canonical, AllFrames, Trees, InOrder, Clear, Share, Aside, Outside, Released, NotAmong, ObjectsOf;
      hide UserProcess.Valid, Intact, ImageOf, Startable, CandidateStops, Metadata, HeapStarts, Requested, Runnable, ProgramOf;
      hide PhysicalFrameAllocator.Exhausted, BlockFits, ImageHeaders, SharedPage, StackPage;
      RequestedStartable(call);
      ClearOfNothing(processes);
      Snapshot(processes, origins, memory, pool, {});
      r := BuildTaken(memory, pool, ProgramOf(call), processes, origins);
      if r.Panic? && CandidateStops(ProgramOf(call), r.reason) {
        CandidateReasons(call, r.reason);
      }
    }

    /** Build it and give it back, as when the scheduler does not take it. */
    method Abandon(call: Execve) returns (r: Outcome<()>)
      requires Valid() && Runnable(call) && Requested(call).Granted?
      modifies memory, pool`count, pool.tracked
      ensures r.Panic? ==> ExecveStops(call, r.reason) || pool.Exhausted(r.reason)
      ensures r.Done? ==> Valid() && Rest() == old(Rest()) && Trees(processes) == old(Trees(processes))
    {
      hide FramesOf, TableOk, Canonical, AllFrames, Trees, InOrder, Clear, Share, Aside, Outside, Released, NewSpace, ObjectsOf;
      hide Intact, ImageOf, Startable, CandidateStops, Metadata, Requested, Runnable, ProgramOf, OnlyImage, Banded;
      hide UserAddressSpace.Valid, PhysicalFrameAllocator.Exhausted, ExecveStops, BlockFits;
      RequestedStartable(call);
      ClearOfNothing(processes);
      Snapshot(processes, origins, memory, pool, {});
      var built := BuildAside(memory, pool, ProgramOf(call), processes, origins);
      if built.Panic? {
        if CandidateStops(ProgramOf(call), built.reason) {
          CandidateReasons(call, built.reason);
        }
        return Panic(built.reason);
      }
      r := DropCandidate(built.value.space, processes, origins);
    }

    /** Put the candidate in the place of the running process, whose address space goes back. */
    method Publish(id: nat, q: UserProcess, ghost origin: Origin, ghost rest: Surroundings) returns (r: Outcome<()>)
      requires pool.Valid() && id in processes && InOrder(processes, origins, memory, pool)
      requires q.space.memory == memory && q.space.pool == pool && q.Valid()
      requires NotAmong(q, processes) && Clear(processes, FramesOf(q.space.tree))
      requires StartedFrom(q.space, memory.bytes, origin.program, origin.prepared)
      requires rest == Outside(Now(memory, pool), FramesOf(q.space.tree) + HeldBy(processes))
      modifies this, processes[id].space, memory`tables, pool`count, pool.tracked
      ensures r.Panic? ==> r.reason == TrackingCapacityExhausted && pool.Exhausted(r.reason)
      ensures r.Done? ==> Valid() && Rest() == rest
      ensures r.Done? ==> processes == old(processes)[id := q] && origins == old(origins)[id := origin]
      ensures r.Done? ==> Programs() == old(Programs())[id := origin.program]
      ensures r.Done? ==> SameBut(id, old(processes), processes, old(Trees(processes)), Trees(processes))
      ensures r.Done? ==> ObjectsOf(processes) <= old(ObjectsOf(processes)) + {q, q.space, q.heap, q.mappings}
    {
      hide FramesOf, TableOk, Canonical, AllFrames, Trees, InOrder, Clear, Share, Aside, Outside, Released, NotAmong, ObjectsOf;
      hide UserProcess.Valid, UserAddressSpace.Valid, UserAddressSpace.Around, UserAddressSpace.Steady, Intact, ImageOf;
      ghost var ps := processes;
      TreesBut(ps, id, q);
      var _ :- Retire(processes[id], ps, origins, id, q, origin, rest, Trees(ps[id := q]));
      NotTheTable(ps[id := q], this);
      MoreObjects(ps, id, q);
      ProgramsMore(ps, origins, id, q, origin);
      processes := processes[id := q];
      origins := origins[id := origin];
      return Done(());
    }

    /** Give back a candidate that was not taken. */
    method DropCandidate(space: UserAddressSpace, ghost ps: Tasks, ghost origins: Origins) returns (r: Outcome<()>)
      requires pool.Valid() && InOrder(ps, origins, memory, pool)
      requires space.memory == memory && space.pool == pool && space.Valid()
      requires NewSpace(space, ps) && Clear(ps, FramesOf(space.tree))
      modifies space, memory`tables, pool`count, pool.tracked
      ensures r.Panic? ==> r.reason == TrackingCapacityExhausted && pool.Exhausted(r.reason)
      ensures r.Done? ==> pool.Valid() && InOrder(ps, origins, memory, pool) && Trees(ps) == old(Trees(ps))
      ensures r.Done? ==>
                Outside(Now(memory, pool), HeldBy(ps)) == old(Outside(Now(memory, pool), FramesOf(space.tree) + HeldBy(ps)))
    {
      hide FramesOf, TableOk, Canonical, AllFrames, Trees, InOrder, Clear, Share, Aside, Outside, Released, NewSpace, ObjectsOf;
      hide UserProcess.Valid, UserAddressSpace.Valid, UserAddressSpace.Around, UserAddressSpace.Steady, Intact, ImageOf;
      ghost var w, mine, held := Now(memory, pool), FramesOf(space.tree), HeldBy(ps);
      Snapshot(ps, origins, memory, pool, mine);
      SpaceOutside(space);
      var _ :- DestroyAside(space, ps, origins, w, mine);
      AllUntouched(ps, origins, memory, pool, w, mine, {});
      RestKept(w, mine, Now(memory, pool), {}, held);
      assert {} + held == held;
      return Done(());
    }

    /** Give back the process that `q` replaces. */
    method Retire(p: UserProcess, ghost ps: Tasks, ghost origins: Origins, ghost id: nat, ghost q: UserProcess, ghost origin: Origin,
                  ghost rest: Surroundings, ghost trees: map<nat, Tree>) returns (r: Outcome<()>)
      requires pool.Valid() && id in ps && ps[id] == p && InOrder(ps, origins, memory, pool)
      requires q.space.memory == memory && q.space.pool == pool && q.Valid()
      requires NotAmong(q, ps) && Clear(ps, FramesOf(q.space.tree))
      requires StartedFrom(q.space, memory.bytes, origin.program, origin.prepared)
      requires rest == Outside(Now(memory, pool), FramesOf(q.space.tree) + HeldBy(ps)) && trees == Trees(ps[id := q])
      modifies p.space, memory`tables, pool`count, pool.tracked
      ensures r.Panic? ==> r.reason == TrackingCapacityExhausted && pool.Exhausted(r.reason)
      ensures r.Done? ==> pool.Valid() && InOrder(ps[id := q], origins[id := origin], memory, pool)
      ensures r.Done? ==> Outside(Now(memory, pool), HeldBy(ps[id := q])) == rest
      ensures r.Done? ==> Trees(ps[id := q]) == trees
    {
      hide FramesOf, TableOk, Canonical, AllFrames, Trees, InOrder, Clear, Share, Aside, Outside, Released, NotAmong, ObjectsOf;
      hide UserProcess.Valid, UserAddressSpace.Valid, UserAddressSpace.Around, UserAddressSpace.Steady, Intact, ImageOf;
      Leaves(ps, origins, id, memory, pool);
      Swaps(ps, origins, id, q, origin, memory, pool);
      ghost var swapped, renewed := ps[id := q], origins[id := origin];
      ghost var w, mine, held := Now(memory, pool), FramesOf(p.space.tree), HeldBy(swapped);
      Snapshot(swapped, renewed, memory, pool, mine);
      SpaceOutside(p.space);
      var _ :- DestroyAside(p.space, swapped, renewed, w, mine);
      AllUntouched(swapped, renewed, memory, pool, w, mine, {});
      RestKept(w, mine, Now(memory, pool), {}, held);
      assert {} + held == held;
      return Done(());
    }

    /** One request; a request for a missing process, or for an identifier in use, is refused. */
    method Handle(request: Request) returns (r: Outcome<bool>)
      requires Valid() && Admissible(request)
      modifies this, ObjectsOf(processes), memory, pool`count, pool.tracked
      ensures r.Panic? ==> RequestStops(request, r.reason) || pool.Exhausted(r.reason)
      ensures r.Done? ==> Valid() && Rest() == old(Rest()) && fresh(ObjectsOf(processes) - old(ObjectsOf(processes)))
      ensures r.Done? ==> SameBut(request.id, old(processes), processes, old(Trees(processes)), Trees(processes))
      ensures r.Done? ==> r.value == Accepted(old(Programs()), request) && Programs() == After(old(Programs()), request)
      ensures r.Done? && request.Memory? && request.id in old(processes) ==>
                && request.id in processes
                && exists answer :: Effect(processes[request.id].heap.base, request.call, old(processes[request.id].Owns()),
                                           processes[request.id].Owns(), answer)
    {
      hide InOrder, Trees, TableOk, Canonical, AllFrames, Outside, Released, ObjectsOf, Startable, CandidateStops, Metadata;
      hide UserProcess.Owns, Effect, Requested, Runnable, ProgramOf, ExecveStops, BuildStops;
      hide SameBut, ProgramsOf, Failure, HeapStarts;
      var id := request.id;
      r := Done(false);
      ProgramsKeys();
      SameButItself(id, processes, Trees(processes));
      if id in processes {
        InObjects(processes, id);
      }
      match request {
        case Start(_, program) =>
          if id !in processes {
            r := Start(id, program);
          }
        case Memory(_, call) =>
          if id in processes {
            var done :- Perform(id, call);
            r := Done(true);
          }
        case Replace(_, call) =>
          if id in processes {
            var error :- Replace(id, call);
            r := Done(error.None?);
          }
        case End(_) =>
          if id in processes {
            var reclaimed :- End(id);
            r := Done(true);
          }
      }
    }

    /** Any run of requests, however the processes are interleaved: afterwards exactly the processes
        run that the requests call for, each valid and intact with the program and vectors it was
        last given, and nothing outside them has changed. */
    method Run(requests: seq<Request>) returns (r: Outcome<seq<bool>>)
      requires Valid() && forall i :: 0 <= i < |requests| ==> Admissible(requests[i])
      modifies this, ObjectsOf(processes), memory, pool`count, pool.tracked
      ensures r.Panic? ==>
                || pool.Exhausted(r.reason)
                || exists i :: 0 <= i < |requests| && RequestStops(requests[i], r.reason)
      ensures r.Done? ==> Valid() && Rest() == old(Rest())
      ensures r.Done? ==> r.value == Answers(old(Programs()), requests) && Programs() == AfterAll(old(Programs()), requests)
      ensures r.Done? ==> processes.Keys == Programs().Keys
      ensures r.Done? && processes == map[] ==> Surrounding(pool.View(), memory.tables, memory.bytes) == old(Rest())
      decreases |requests|
    {
      hide InOrder, AllFrames, Trees, Outside, Released, Admissible, RequestStops, ObjectsOf, SameBut, Accepted, After, ProgramsOf;
      if requests == [] {
        ProgramsKeys();
        if processes == map[] {
          NothingHeld();
        }
        return Done([]);
      }
      var first :- HandleFirst(requests);
      var rest := requests[1..];
      r := Run(rest);
      if r.Panic? {
        if !pool.Exhausted(r.reason) {
          var i :| 0 <= i < |rest| && RequestStops(rest[i], r.reason);
          assert requests[i + 1] == rest[i];
        }
        return;
      }
      r := Done([first] + r.value);
    }

    method HandleFirst(requests: seq<Request>) returns (r: Outcome<bool>)
      requires Valid() && requests != [] && Admissible(requests[0])
      modifies this, ObjectsOf(processes), memory, pool`count, pool.tracked
      ensures r.Panic? ==> pool.Exhausted(r.reason) || RequestStops(requests[0], r.reason)
      ensures r.Done? ==> Valid() && Rest() == old(Rest()) && fresh(ObjectsOf(processes) - old(ObjectsOf(processes)))
      ensures r.Done? ==>
                r.value == Accepted(old(Programs()), requests[0]) && Programs() == After(old(Programs()), requests[0])
    {
      hide InOrder, AllFrames, Trees, Outside, Released, Admissible, RequestStops, ObjectsOf, SameBut, Accepted, After, ProgramsOf;
      r := Handle(requests[0]);
    }
  }

  // ---------------------------------------------------------------- what the requests call for

  /** What the processes of the system ask for. */
  datatype Request =
    | Start(id: nat, program: Program)
    | Memory(id: nat, call: Call)
    | Replace(id: nat, execve: Execve)
    | End(id: nat)

  ghost predicate Admissible(request: Request) {
    && (request.Start? ==> Startable(request.program))
    && (request.Replace? ==> Runnable(request.execve))
  }

  ghost predicate RequestStops(request: Request, reason: PanicReason) {
    || (request.Start? && BuildStops(request.program, reason))
    || (request.Replace? && ExecveStops(request.execve, reason))
  }

  ghost function ProgramsOf(ps: Tasks, origins: Origins): map<nat, Program> {
    map id | id in ps && id in origins :: origins[id].program
  }

  lemma ProgramsMore(ps: Tasks, origins: Origins, id: nat, p: UserProcess, origin: Origin)
    ensures ProgramsOf(ps[id := p], origins[id := origin]) == ProgramsOf(ps, origins)[id := origin.program]
  {
  }

  lemma ProgramsLess(ps: Tasks, origins: Origins, id: nat)
    ensures ProgramsOf(ps - {id}, origins) == ProgramsOf(ps, origins) - {id}
  {
  }

  /** Whether a request is carried out, by who runs. */
  ghost predicate Accepted(programs: map<nat, Program>, request: Request) {
    match request
    case Start(id, program) => id !in programs && Metadata(program.image).Ok?
    case Memory(id, _) => id in programs
    case Replace(id, call) => id in programs && Failure(call).None?
    case End(id) => id in programs
  }

  /** Who runs after a request, and from what. */
  ghost function After(programs: map<nat, Program>, request: Request): map<nat, Program> {
    if !Accepted(programs, request) then programs
    else match request
      case Start(id, program) => programs[id := program]
      case Memory(_, _) => programs
      case Replace(id, call) => programs[id := ProgramOf(call)]
      case End(id) => programs - {id}
  }

  ghost function AfterAll(programs: map<nat, Program>, requests: seq<Request>): map<nat, Program>
    decreases |requests|
  {
    if requests == [] then programs else AfterAll(After(programs, requests[0]), requests[1..])
  }

  ghost function Answers(programs: map<nat, Program>, requests: seq<Request>): seq<bool>
    decreases |requests|
  {
    if requests == [] then [] else [Accepted(programs, requests[0])] + Answers(After(programs, requests[0]), requests[1..])
  }

  /** The heap of a process starts where its image ends. */
  ghost predicate HeapStarts(p: UserProcess, program: Program) {
    Metadata(program.image).Ok? && p.heap.base == Metadata(program.image).value.heapStart
  }

  /** The origin of `id` is now this program. */
  ghost predicate Placed(id: nat, before: Origins, after: Origins, program: Program) {
    id in after && after == before[id := after[id]] && after[id].program == program
  }

  lemma MoreObjects(ps: Tasks, id: nat, p: UserProcess)
    ensures ObjectsOf(ps[id := p]) <= ObjectsOf(ps) + {p, p.space, p.heap, p.mappings}
  {
  }

  lemma FewerObjects(ps: Tasks, id: nat)
    ensures ObjectsOf(ps - {id}) <= ObjectsOf(ps)
  {
  }

  lemma InObjects(ps: Tasks, id: nat)
    requires id in ps
    ensures {ps[id] as object, ps[id].space, ps[id].heap, ps[id].mappings} <= ObjectsOf(ps)
  {
  }

  /** With a candidate built next to everybody, the process it replaces is apart from the rest. */
  lemma Swaps(ps: Tasks, origins: Origins, id: nat, q: UserProcess, origin: Origin, memory: PhysicalMemory,
              pool: PhysicalFrameAllocator)
    requires id in ps && InOrder(ps, origins, memory, pool)
    requires q.space.memory == memory && q.space.pool == pool && q.Valid()
    requires NotAmong(q, ps) && Clear(ps, FramesOf(q.space.tree))
    requires StartedFrom(q.space, memory.bytes, origin.program, origin.prepared)
    ensures InOrder(ps[id := q], origins[id := origin], memory, pool)
    ensures NewSpace(ps[id].space, ps[id := q]) && Clear(ps[id := q], FramesOf(ps[id].space.tree))
    ensures FramesOf(ps[id].space.tree) + HeldBy(ps[id := q]) == FramesOf(q.space.tree) + HeldBy(ps)
  {
    hide FramesOf, UserProcess.Valid, AllFrames, InOrder, Intact, ImageOf;
    var others := ps - {id};
    Leaves(ps, origins, id, memory, pool);
    assert forall other :: other in others ==> other in ps;
    Joins(others, origins, id, q, origin, memory, pool);
    assert others[id := q] == ps[id := q];
    HeldByMore(others, id, q);
    HeldByMore(others, id, ps[id]);
  }

  lemma NotTheTable(ps: Tasks, table: ProcessTable)
    ensures forall o :: o in ObjectsOf(ps) ==> o != table
  {
  }

  lemma ClearOfNothing(ps: Tasks)
    ensures Clear(ps, {})
  {
  }

  /** A memory call writes to no object of a bystander. */
  method PerformAside(p: UserProcess, call: Call, ghost others: Tasks, ghost origins: Origins, ghost w: World, ghost mine: set<nat>)
      returns (r: Outcome<Answer>)
    requires p.Valid() && NotAmong(p, others) && Aside(others, origins, w, mine)
    modifies p.heap, p.mappings, p.space, p.space.memory, p.space.pool`count, p.space.pool.tracked
    ensures r.Panic? ==> p.space.pool.Exhausted(r.reason)
    ensures r.Done? ==> p.Valid() && p.space.Steady() == old(p.space.Steady())
    ensures r.Done? ==> Effect(p.heap.base, call, old(p.Owns()), p.Owns(), r.value)
    ensures Aside(others, origins, w, mine) && Trees(others) == old(Trees(others))
  {
    hide Aside, Trees, NotAmong, UserAddressSpace.Valid, UserAddressSpace.Steady;
    hide HeapPages, Agree, RecordsOk, Banded, Effect, UserProcess.Owns;
    ObjectsApart(p, others, p.space.memory, p.space.pool);
    r := p.Perform(call);
  }

  /** Destroying a space writes to no object of a bystander. */
  method DestroyAside(space: UserAddressSpace, ghost others: Tasks, ghost origins: Origins, ghost w: World, ghost mine: set<nat>)
      returns (r: Outcome<Reclaimed>)
    requires space.Valid() && NewSpace(space, others) && Aside(others, origins, w, mine)
    modifies space, space.memory`tables, space.pool`count, space.pool.tracked
    ensures r.Panic? ==> r.reason == TrackingCapacityExhausted && space.pool.Exhausted(r.reason)
    ensures r.Done? ==> space.pool.Valid()
    ensures r.Done? ==> Outside(Now(space.memory, space.pool), {}) == old(space.Around())
    ensures Aside(others, origins, w, mine) && Trees(others) == old(Trees(others))
  {
    hide Aside, Trees, NewSpace, UserAddressSpace.Valid, UserAddressSpace.Around, Surrounding, TableOk, Canonical;
    SpaceApart(space, others, space.memory, space.pool);
    r := DestroyUserAddressSpace(space);
    if r.Done? {
      ReleasedNothing(space.pool.View());
    }
  }

  /** Building a candidate disturbs no bystander. */
  method BuildAside(memory: PhysicalMemory, pool: PhysicalFrameAllocator, program: Program, ghost ps: Tasks, ghost origins: Origins)
      returns (r: Outcome<Candidate>)
    requires pool.Valid() && Startable(program) && Metadata(program.image).Ok?
    requires Share(ps, memory, pool) && Aside(ps, origins, Now(memory, pool), {})
    modifies memory, pool`count, pool.tracked
    ensures r.Panic? ==> CandidateStops(program, r.reason) || pool.Exhausted(r.reason)
    ensures r.Done? ==> var c := r.value;
              && fresh(c.space) && Ready(c) && c.space.memory == memory && c.space.pool == pool && NewSpace(c.space, ps)
              && c.heapStart == Metadata(program.image).value.heapStart
              && StartedFrom(c.space, memory.bytes, program, c.prepared)
    ensures r.Done? ==> pool.Valid() && InOrder(ps, origins, memory, pool) && Clear(ps, FramesOf(r.value.space.tree))
    ensures r.Done? ==> Trees(ps) == old(Trees(ps))
    ensures r.Done? ==>
              Outside(Now(memory, pool), FramesOf(r.value.space.tree) + HeldBy(ps)) == old(Outside(Now(memory, pool), HeldBy(ps)))
  {
    hide FramesOf, TableOk, Canonical, AllFrames, Trees, InOrder, Clear, Share, Aside, Outside, Released, NewSpace, ObjectsOf;
    hide UserProcess.Valid, UserAddressSpace.Valid, UserAddressSpace.Around, UserAddressSpace.Steady, Intact, ImageOf;
    hide Startable, CandidateStops, Metadata, OnlyImage, Banded;
    ghost var w, held := Now(memory, pool), HeldBy(ps);
    r := BuildAlone(memory, pool, program, ps, origins);
    if r.Done? {
      ghost var mine := FramesOf(r.value.space.tree);
      SpaceOutside(r.value.space);
      AllUntouched(ps, origins, memory, pool, w, {}, mine);
      RestKept(w, {}, Now(memory, pool), mine, held);
      assert {} + held == held;
    }
  }

  /** Building a candidate writes to no object of a bystander. */
  method BuildAlone(memory: PhysicalMemory, pool: PhysicalFrameAllocator, program: Program, ghost ps: Tasks, ghost origins: Origins)
      returns (r: Outcome<Candidate>)
    requires pool.Valid() && Startable(program) && Metadata(program.image).Ok?
    requires Aside(ps, origins, Now(memory, pool), {})
    modifies memory, pool`count, pool.tracked
    ensures r.Panic? ==> CandidateStops(program, r.reason) || pool.Exhausted(r.reason)
    ensures r.Done? ==> var c := r.value;
              && fresh(c.space) && Ready(c) && c.space.memory == memory && c.space.pool == pool && NewSpace(c.space, ps)
              && c.space.Around() == old(Outside(Now(memory, pool), {}))
              && c.heapStart == Metadata(program.image).value.heapStart
              && StartedFrom(c.space, memory.bytes, program, c.prepared)
    ensures r.Done? ==> Aside(ps, origins, old(Now(memory, pool)), {}) && Trees(ps) == old(Trees(ps))
  {
    hide Aside, Trees, UserAddressSpace.Valid, UserAddressSpace.Around, Metadata, Startable, CandidateStops, Surrounding, Intact;
    hide ImageOf, TableOk, Canonical, PhysicalFrameAllocator.Exhausted, OnlyImage, Banded, SharedPage, StackPage, ImageHeaders;
    ReleasedNothing(pool.View());
    ObjectsNotShared(ps, memory, pool);
    r := BuildCandidate(memory, pool, program);
  }

  /** Taking a candidate disturbs nobody: it only makes a new heap and a new mapping table. */
  method TakeAside(candidate: Candidate, ghost ps: Tasks, ghost origins: Origins, ghost memory: PhysicalMemory,
                   ghost pool: PhysicalFrameAllocator) returns (r: Outcome<UserProcess>)
    requires Ready(candidate) && NewSpace(candidate.space, ps) && pool.Valid() && InOrder(ps, origins, memory, pool)
    requires candidate.space.memory == memory && candidate.space.pool == pool
    ensures r.Panic? <==> HEAP_END_PAGE <= candidate.heapStart
    ensures r.Panic? ==> r.reason == HeapStartTooHigh
    ensures r.Done? ==>
              && fresh(r.value) && fresh(r.value.heap) && fresh(r.value.mappings)
              && r.value.space == candidate.space && r.value.Valid() && r.value.heap.base == candidate.heapStart
              && NotAmong(r.value, ps)
    ensures pool.Valid() && InOrder(ps, origins, memory, pool) && Trees(ps) == old(Trees(ps))
  {
    hide Ready, UserProcess.Valid, InOrder, TableOk, Canonical, Trees;
    ObjectsNotShared(ps, memory, pool);
    r := TakeCandidate(candidate);
  }

  lemma ClearByTrees(ps: Tasks, mine: set<nat>)
    ensures Clear(ps, mine) <==> forall id :: id in Trees(ps) ==> FramesOf(Trees(ps)[id]) !! mine
  {
    hide FramesOf;
    assert forall id :: id in ps ==> id in Trees(ps) && Trees(ps)[id] == ps[id].space.tree;
  }

  /** Building a process disturbs no bystander. */
  method BuildTaken(memory: PhysicalMemory, pool: PhysicalFrameAllocator, program: Program, ghost ps: Tasks, ghost origins: Origins)
      returns (r: Outcome<(UserProcess, PreparedStack)>)
    requires pool.Valid() && Startable(program) && Metadata(program.image).Ok?
    requires Share(ps, memory, pool) && Aside(ps, origins, Now(memory, pool), {})
    modifies memory, pool`count, pool.tracked
    ensures r.Panic? ==> BuildStops(program, r.reason) || pool.Exhausted(r.reason)
    ensures r.Done? ==> var p := r.value.0;
              && fresh(p) && fresh(p.space) && fresh(p.heap) && fresh(p.mappings) && p.Valid() && HeapStarts(p, program)
              && p.space.memory == memory && p.space.pool == pool && NotAmong(p, ps)
              && StartedFrom(p.space, memory.bytes, program, r.value.1)
    ensures r.Done? ==> pool.Valid() && InOrder(ps, origins, memory, pool) && Clear(ps, FramesOf(r.value.0.space.tree))
    ensures r.Done? ==> Trees(ps) == old(Trees(ps))
    ensures r.Done? ==>
              Outside(Now(memory, pool), FramesOf(r.value.0.space.tree) + HeldBy(ps)) == old(Outside(Now(memory, pool), HeldBy(ps)))
  {
    hide FramesOf, TableOk, Canonical, AllFrames, Trees, InOrder, Clear, Share, Aside, Outside, Released, NotAmong, ObjectsOf;
    hide UserProcess.Valid, UserAddressSpace.Valid, UserAddressSpace.Around, UserAddressSpace.Steady, Intact, ImageOf;
    hide Startable, CandidateStops, Metadata, NewSpace, Ready, PhysicalFrameAllocator.Exhausted;
    var candidate :- BuildAside(memory, pool, program, ps, origins);
    ClearByTrees(ps, FramesOf(candidate.space.tree));
    var process :- TakeAside(candidate, ps, origins, memory, pool);
    ClearByTrees(ps, FramesOf(candidate.space.tree));
    return Done((process, candidate.prepared));
  }
}
