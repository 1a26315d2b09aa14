/** The frame-to-(state, owner) map a frame table stands for, the allocator's operations as
    steps on tables, and the proof that every run of them refines steps on the map. */
module FrameMap {
  import opened Machine
  import opened Ranges
  import opened RangeMaps
  import opened FrameTable

  type Frames = map<nat, Info>

  // ---------------------------------------------------------------- allocation

  ghost predicate NoneFree(view: Frames) {
    forall frame :: frame in view ==> view[frame] != FREE
  }

  /** `pages` contiguous frames are free somewhere. */
  ghost predicate SomeRunFree(view: Frames, pages: nat) {
    exists start: nat :: AllHave(view, start, pages, FREE)
  }

  /** `allocate_frames_for`: the first free entry that is long enough. */
  function AllocatedStart(table: Table, pages: nat): Option<nat> {
    var index := FirstIndex(table, FreeWithPages(pages), 0);
    if index == |table| then None else Some(table[index].start)
  }

  lemma CandidateMarks(table: Table, index: nat, pages: nat, owner: FrameOwner)
    requires TableOk(table) && index < |table| && FreeWithPages(pages)(table[index])
    ensures MarkedUsed(table, table[index].start, pages, owner).Some?
  {
    assert FreeHolding(table[index].start, pages)(table[index]);
  }

  function AllocatedTable(table: Table, pages: nat, owner: FrameOwner): Table
  {
    match AllocatedStart(table, pages)
    case None => table
    case Some(start) =>
      match MarkedUsed(table, start, pages, owner) {
        case None => table
        case Some(after) => after
      }
  }

  /** An allocation turns `pages` contiguous free frames, none of them frame 0, into frames
      used by `owner` and changes no other; a refusal means no free entry is long enough. */
  lemma AllocationRefines(table: Table, pages: nat, owner: FrameOwner)
    requires TableOk(table) && 0 < pages && owner != Nobody
    ensures TableOk(AllocatedTable(table, pages, owner))
    ensures match AllocatedStart(table, pages)
            case None => AllocatedTable(table, pages, owner) == table
            case Some(start) =>
              && 1 <= start && AllHave(Meaning(table), start, pages, FREE)
              && Meaning(AllocatedTable(table, pages, owner)) == Painted(Meaning(table), start, pages, Info(Used, owner))
  {
    match AllocatedStart(table, pages)
    case None =>
    case Some(start) =>
      var index := FirstIndex(table, FreeWithPages(pages), 0);
      CandidateMarks(table, index, pages, owner);
      MarkedUsedMeaning(table, start, pages, owner);
      var after := MarkedUsed(table, start, pages, owner).value;
      TaggedMeaning(table, start, pages, FREE);
      RepaintedMeaning(table, after, start, pages, Info(Used, owner));
  }

  // ---------------------------------------------------------------- release

  function FreedTable(table: Table, start: nat, pages: nat, owner: FrameOwner): Table {
    if owner == Nobody then table
    else match MarkedFree(table, start, pages, owner)
      case None => table
      case Some(after) => after
  }

  predicate FreeAccepted(table: Table, start: nat, pages: nat, owner: FrameOwner) {
    owner != Nobody && MarkedFree(table, start, pages, owner).Some?
  }

  /** An accepted release turns exactly the named frames, all used by `owner`, into free
      frames; a refused one changes nothing. */
  lemma ReleaseRefines(table: Table, start: nat, pages: nat, owner: FrameOwner)
    requires TableOk(table) && 0 < pages
    ensures TableOk(FreedTable(table, start, pages, owner))
    ensures if FreeAccepted(table, start, pages, owner) then
              && AllHave(Meaning(table), start, pages, Info(Used, owner))
              && Meaning(FreedTable(table, start, pages, owner)) == Painted(Meaning(table), start, pages, FREE)
            else FreedTable(table, start, pages, owner) == table
  {
    if FreeAccepted(table, start, pages, owner) {
      MarkedFreeMeaning(table, start, pages, owner);
      TaggedMeaning(table, start, pages, Info(Used, owner));
      RepaintedMeaning(table, MarkedFree(table, start, pages, owner).value, start, pages, FREE);
    }
  }

  /** A single frame is released exactly when it is used by `owner`. */
  lemma SingleRelease(table: Table, frame: nat, owner: FrameOwner)
    requires TableOk(table) && owner != Nobody
    ensures FreeAccepted(table, frame, 1, owner) <==> frame in Meaning(table) && Meaning(table)[frame] == Info(Used, owner)
  {
    if FreeAccepted(table, frame, 1, owner) {
      ReleaseRefines(table, frame, 1, owner);
      assert InRange(frame, frame, 1);
    }
    if frame in Meaning(table) && Meaning(table)[frame] == Info(Used, owner) {
      MeaningSound(table, frame);
      var index := AtWitness(table, frame, Info(Used, owner));
      assert table[index].Valid();
      assert UsedHolding(frame, 1, owner)(table[index]);
    }
  }

  // ---------------------------------------------------------------- runs

  datatype Request =
    | Add(start: nat, pages: nat)
    | Reserve(start: nat, pages: nat, owner: FrameOwner)
    | Allocate(pages: nat, owner: FrameOwner)
    | Release(start: nat, pages: nat, owner: FrameOwner)

  function Step(table: Table, request: Request): Table {
    match request
    case Add(start, pages) => Inserted(table, Range(start, pages, FREE))
    case Reserve(start, pages, owner) => ReservedTable(table, start, pages, owner)
    case Allocate(pages, owner) => AllocatedTable(table, pages, owner)
    case Release(start, pages, owner) => FreedTable(table, start, pages, owner)
  }

  /** What the callers owe: firmware descriptors that are disjoint, reservations that hit free
      frames only, and non-empty typed frame counts with a real owner. */
  ghost predicate Permitted(frames: Frames, request: Request) {
    match request
    case Add(start, pages) =>
      && 1 <= start && start + pages < PAGE_NUMBER_LIMIT
      && forall frame :: InRange(frame, start, pages) ==> frame !in frames
    case Reserve(start, pages, owner) =>
      && start + pages < PAGE_NUMBER_LIMIT
      && forall frame :: InRange(frame, start, pages) && frame in frames ==> frames[frame] == FREE
    case Allocate(pages, owner) => 0 < pages && owner != Nobody
    case Release(start, pages, owner) => 0 < pages
  }

  /** The step a request makes on the frame map. */
  ghost predicate MapStep(before: Frames, request: Request, after: Frames) {
    match request
    case Add(start, pages) => after == Painted(before, start, pages, FREE)
    case Reserve(start, pages, owner) => after == Painted(before, start, pages, Info(Reserved, owner))
    case Allocate(pages, owner) =>
      || after == before
      || exists start: nat :: 1 <= start && AllHave(before, start, pages, FREE)
                         && after == Painted(before, start, pages, Info(Used, owner))
    case Release(start, pages, owner) =>
      || after == before
      || (AllHave(before, start, pages, Info(Used, owner)) && after == Painted(before, start, pages, FREE))
  }

  lemma OnlyFreeMeaning(table: Table, start: nat, pages: nat)
    requires Exclusive(table)
    requires forall frame :: InRange(frame, start, pages) && frame in Meaning(table) ==> Meaning(table)[frame] == FREE
    ensures OnlyFree(table, start, pages)
  {
    forall frame | InRange(frame, start, pages) ensures At(table, frame) <= multiset{FREE} {
      MeaningExact(table, frame);
    }
  }

  /** One request on the table is one step on the map. */
  lemma StepRefines(table: Table, request: Request)
    requires TableOk(table) && Permitted(Meaning(table), request)
    ensures TableOk(Step(table, request))
    ensures MapStep(Meaning(table), request, Meaning(Step(table, request)))
  {
    match request
    case Add(start, pages) =>
      UntrackedMeaning(table, start, pages);
      AddedMeaning(table, start, pages);
      RepaintedMeaning(table, Step(table, request), start, pages, FREE);
    case Reserve(start, pages, owner) =>
      OnlyFreeMeaning(table, start, pages);
      ReservedMeaning(table, start, pages, owner);
      RepaintedMeaning(table, Step(table, request), start, pages, Info(Reserved, owner));
    case Allocate(pages, owner) =>
      AllocationRefines(table, pages, owner);
    case Release(start, pages, owner) =>
      ReleaseRefines(table, start, pages, owner);
  }

  function Run(table: Table, requests: seq<Request>): Table
    decreases |requests|
  {
    if requests == [] then table else Run(Step(table, requests[0]), requests[1..])
  }

  ghost predicate RunPermitted(table: Table, requests: seq<Request>)
    decreases |requests|
  {
    requests == [] || (Permitted(Meaning(table), requests[0]) && RunPermitted(Step(table, requests[0]), requests[1..]))
  }

  /** A trace of maps, one per request, each reached by a step of the map. */
  ghost predicate MapTrace(trace: seq<Frames>, requests: seq<Request>) {
    && |trace| == |requests| + 1
    && forall i :: 0 <= i < |requests| ==> MapStep(trace[i], requests[i], trace[i + 1])
  }

  /** The frame maps a run goes through, the first and the last included. */
  ghost function Trace(table: Table, requests: seq<Request>): seq<Frames>
    decreases |requests|
  {
    if requests == [] then [Meaning(table)] else [Meaning(table)] + Trace(Step(table, requests[0]), requests[1..])
  }

  /** Every run of the allocator's table operations is a run on the frame map. */
  lemma {:induction false} RunRefines(table: Table, requests: seq<Request>)
    requires TableOk(table) && RunPermitted(table, requests)
    ensures TableOk(Run(table, requests))
    ensures MapTrace(Trace(table, requests), requests)
    ensures Trace(table, requests)[0] == Meaning(table)
    ensures Trace(table, requests)[|requests|] == Meaning(Run(table, requests))
    decreases |requests|
  {
    if requests != [] {
      var next := Step(table, requests[0]);
      StepRefines(table, requests[0]);
      RunRefines(next, requests[1..]);
      TraceExtends(Meaning(table), Trace(next, requests[1..]), requests);
    }
  }

  lemma TraceExtends(first: Frames, rest: seq<Frames>, requests: seq<Request>)
    requires requests != [] && MapTrace(rest, requests[1..]) && MapStep(first, requests[0], rest[0])
    ensures MapTrace([first] + rest, requests)
  {
    forall i | 0 <= i < |requests| ensures MapStep(([first] + rest)[i], requests[i], ([first] + rest)[i + 1]) {
      if i > 0 {
        assert MapStep(rest[i - 1], requests[1..][i - 1], rest[i]);
      }
    }
  }

  // ---------------------------------------------------------------- conservation

  /** An allocation moves exactly `pages` frames from free to used by `owner`: for every class
      of frames, what is lost there is gained elsewhere. */
  lemma AllocationConserves(table: Table, pages: nat, owner: FrameOwner, wanted: Info -> bool)
    requires TableOk(table) && 0 < pages && owner != Nobody && AllocatedStart(table, pages).Some?
    ensures PagesWhere(AllocatedTable(table, pages, owner), wanted) + (if wanted(FREE) then pages else 0)
         == PagesWhere(table, wanted) + (if wanted(Info(Used, owner)) then pages else 0)
  {
    AllocationRefines(table, pages, owner);
    PagesCountFrames(table, wanted);
    PagesCountFrames(AllocatedTable(table, pages, owner), wanted);
    PaintedCount(Meaning(table), AllocatedStart(table, pages).value, pages, FREE, Info(Used, owner), wanted);
  }

  /** An accepted release moves the same frames back. */
  lemma ReleaseConserves(table: Table, start: nat, pages: nat, owner: FrameOwner, wanted: Info -> bool)
    requires TableOk(table) && 0 < pages && FreeAccepted(table, start, pages, owner)
    ensures PagesWhere(FreedTable(table, start, pages, owner), wanted) + (if wanted(Info(Used, owner)) then pages else 0)
         == PagesWhere(table, wanted) + (if wanted(FREE) then pages else 0)
  {
    ReleaseRefines(table, start, pages, owner);
    PagesCountFrames(table, wanted);
    PagesCountFrames(FreedTable(table, start, pages, owner), wanted);
    PaintedCount(Meaning(table), start, pages, Info(Used, owner), FREE, wanted);
  }
}
