/** The physical frame allocator: a fixed array of tracked ranges changed in place. */
module FrameAllocator {
  import opened Machine
  import opened RangeMaps
  import opened Ranges
  import opened RangeArrays
  import opened FrameTable
  import opened FrameMap
  import opened CanonicalRanges
  import opened FrameCanonical

  const MAX_TRACKED_RANGES: nat := 512

  // ---------------------------------------------------------------- normalization

  function AlignUp(value: nat): Option<nat> {
    if value + (PAGE_SIZE - 1) > U64_MAX then None
    else Some((value + (PAGE_SIZE - 1)) / PAGE_SIZE * PAGE_SIZE)
  }

  /** First frame and frame count of a byte range, rounded inward from `lowest` on. */
  function NormalizeFrom(start: nat, frameCount: nat, lowest: nat): Option<(nat, nat)> {
    var end := start + frameCount * PAGE_SIZE;
    if end > U64_MAX then None
    else match AlignUp(Max(start, lowest))
      case None => None
      case Some(aligned) =>
        if aligned >= end then None else Some((aligned / PAGE_SIZE, (end - aligned) / PAGE_SIZE))
  }

  function NormalizeRegion(start: nat, frameCount: nat): Option<(nat, nat)> {
    NormalizeFrom(start, frameCount, PAGE_SIZE)
  }

  function NormalizeReservedRegion(start: nat, frameCount: nat): Option<(nat, nat)> {
    NormalizeFrom(start, frameCount, 0)
  }

  predicate WholeFrame(frame: nat, start: nat, end: nat) {
    start <= frame * PAGE_SIZE && frame * PAGE_SIZE + PAGE_SIZE <= end
  }

  /** Normalization keeps exactly the whole frames of the byte range, from `lowest` on. */
  lemma NormalizedFrames(start: nat, frameCount: nat, lowest: nat, frame: nat)
    requires start + frameCount * PAGE_SIZE <= U64_MAX && lowest % PAGE_SIZE == 0
    ensures (match NormalizeFrom(start, frameCount, lowest)
             case None => false
             case Some(region) => InRange(frame, region.0, region.1))
       <==> WholeFrame(frame, start, start + frameCount * PAGE_SIZE) && lowest <= frame * PAGE_SIZE
  {
  }

  lemma NormalizedBounds(start: nat, frameCount: nat, lowest: nat)
    ensures match NormalizeFrom(start, frameCount, lowest)
            case None => true
            case Some(region) => region.0 + region.1 < PAGE_NUMBER_LIMIT && lowest <= region.0 * PAGE_SIZE
  {
  }

  /** A whole frame of a region given by its first byte and its number of frames, none of which may
      end beyond 64 bits. */
  predicate InRegion(frame: nat, start: nat, frameCount: nat) {
    start + frameCount * PAGE_SIZE <= U64_MAX && WholeFrame(frame, start, start + frameCount * PAGE_SIZE)
  }

  /** The frames that normalization keeps of a region. */
  lemma NormalizedRegion(start: nat, frameCount: nat, lowest: nat)
    requires lowest == 0 || lowest == PAGE_SIZE
    ensures match NormalizeFrom(start, frameCount, lowest)
            case None => forall frame: nat :: !(InRegion(frame, start, frameCount) && lowest <= frame * PAGE_SIZE)
            case Some(region) =>
              forall frame: nat ::
                InRange(frame, region.0, region.1) <==> InRegion(frame, start, frameCount) && lowest <= frame * PAGE_SIZE
  {
    if start + frameCount * PAGE_SIZE <= U64_MAX {
      forall frame: nat
        ensures (match NormalizeFrom(start, frameCount, lowest)
                 case None => false
                 case Some(region) => InRange(frame, region.0, region.1))
           <==> InRegion(frame, start, frameCount) && lowest <= frame * PAGE_SIZE
      {
        NormalizedFrames(start, frameCount, lowest, frame);
      }
    }
  }

  /** What adding a region does to the record of each frame: its whole frames but frame 0 are recorded
      as free once more. */
  ghost predicate RegionAdded(before: Table, after: Table, start: nat, frameCount: nat) {
    forall frame :: At(after, frame)
                 == if 1 <= frame && InRegion(frame, start, frameCount) then At(before, frame) + multiset{Info(Free, Nobody)}
                    else At(before, frame)
  }

  /** None of its frames is tracked yet. */
  ghost predicate RegionUntracked(view: Frames, start: nat, frameCount: nat) {
    forall frame :: 1 <= frame && InRegion(frame, start, frameCount) ==> frame !in view
  }

  /** Its frames are free, and every other frame is as before. */
  ghost predicate RegionFreed(before: Frames, after: Frames, start: nat, frameCount: nat) {
    forall frame: nat ::
      if 1 <= frame && InRegion(frame, start, frameCount) then frame in after && after[frame] == Info(Free, Nobody)
      else (frame in after <==> frame in before) && (frame in before ==> after[frame] == before[frame])
  }

  /** What reserving a region does to the record of each frame: its whole frames lose what was free
      about them and are reserved for the owner, on top of any other record. */
  ghost predicate RegionReserved(before: Table, after: Table, start: nat, frameCount: nat, owner: FrameOwner) {
    forall frame :: At(after, frame)
                 == if InRegion(frame, start, frameCount)
                    then At(before, frame)[Info(Free, Nobody) := 0] + multiset{Info(Reserved, owner)}
                    else At(before, frame)
  }

  /** Its frames are free or not tracked. */
  ghost predicate RegionUnused(view: Frames, start: nat, frameCount: nat) {
    forall frame :: InRegion(frame, start, frameCount) && frame in view ==> view[frame] == Info(Free, Nobody)
  }

  /** Its frames are reserved for the owner, and every other frame is as before. */
  ghost predicate RegionTaken(before: Frames, after: Frames, start: nat, frameCount: nat, owner: FrameOwner) {
    forall frame: nat ::
      if InRegion(frame, start, frameCount) then frame in after && after[frame] == Info(Reserved, owner)
      else (frame in after <==> frame in before) && (frame in before ==> after[frame] == before[frame])
  }

  /** Some whole frame of the region exists, and all of them lie strictly inside one free entry. */
  ghost predicate RegionPunches(table: Table, start: nat, frameCount: nat) {
    exists i :: 0 <= i < |table| && RegionStrictlyIn(table[i], start, frameCount)
  }

  ghost predicate RegionStrictlyIn(entry: Tracked, start: nat, frameCount: nat) {
    && entry.tag.state == Free && (exists frame: nat :: InRegion(frame, start, frameCount))
    && forall frame: nat :: InRegion(frame, start, frameCount) ==> entry.start < frame && frame + 1 < entry.End()
  }

  /** Every frame of the region is recorded as free once more, and no other changes. */
  ghost predicate AddRecords(before: Table, after: Table, start: nat, pages: nat) {
    forall frame :: At(after, frame) == if InRange(frame, start, pages) then At(before, frame) + multiset{FREE} else At(before, frame)
  }

  ghost predicate ReserveRecords(before: Table, after: Table, start: nat, pages: nat, owner: FrameOwner) {
    forall frame :: At(after, frame) == ReservedAt(At(before, frame), InRange(frame, start, pages), owner)
  }

  /** What adding does to any table, and that a valid one stays valid exactly when it may be added. */
  lemma AddStep(table: Table, start: nat, pages: nat, holed: bool, valid: bool)
    requires AllValid(table) && EntriesOk(table) && 1 <= start && start + pages < PAGE_NUMBER_LIMIT
    requires valid ==> TableOk(table) && (!holed ==> Canonical(table))
    ensures var after := Step(table, Add(start, pages));
            && AllValid(after) && EntriesOk(after) && AddRecords(table, after, start, pages)
            && (valid ==> (TableOk(after) && (!holed ==> Canonical(after)) <==> Permitted(Meaning(table), Add(start, pages))))
            && (valid && TableOk(after) ==> Meaning(after) == Painted(Meaning(table), start, pages, FREE))
  {
    hide Canonical, Inserted;
    var request := Add(start, pages);
    InsertedMeaning(table, Range(start, pages, FREE));
    forall frame: nat
      ensures At([Range(start, pages, FREE)], frame) == if InRange(frame, start, pages) then multiset{FREE} else multiset{}
    {
      AtSingle(Range(start, pages, FREE), frame);
    }
    if valid {
      AddedExact(table, start, pages);
      if Untracked(table, start, pages) {
        forall frame: nat | InRange(frame, start, pages) ensures frame !in Meaning(table) {
          MeaningExact(table, frame);
        }
        StepRefines(table, request);
        if !holed {
          StepKeepsCanonical(table, request);
        }
      } else if Permitted(Meaning(table), request) {
        UntrackedMeaning(table, start, pages);
      }
    }
  }

  /** Likewise for a reservation. */
  lemma ReserveStep(table: Table, start: nat, pages: nat, owner: FrameOwner, holed: bool, valid: bool)
    requires AllValid(table) && EntriesOk(table) && start + pages < PAGE_NUMBER_LIMIT
    requires valid ==> TableOk(table) && (!holed ==> Canonical(table))
    ensures var after := Step(table, Reserve(start, pages, owner));
            && AllValid(after) && EntriesOk(after) && ReserveRecords(table, after, start, pages, owner)
            && (valid ==>
                  (TableOk(after) && (!holed && !PunchesHole(table, start, pages) ==> Canonical(after))
                   <==> Permitted(Meaning(table), Reserve(start, pages, owner))))
            && (valid && TableOk(after) ==> Meaning(after) == Painted(Meaning(table), start, pages, Info(Reserved, owner)))
  {
    hide Canonical, ReservedTable, PunchesHole;
    var request := Reserve(start, pages, owner);
    ReservedRecords(table, start, pages, owner);
    if valid {
      ReservedExact(table, start, pages, owner);
      if OnlyFree(table, start, pages) {
        forall frame: nat | InRange(frame, start, pages) && frame in Meaning(table) ensures Meaning(table)[frame] == FREE {
          MeaningExact(table, frame);
          assert At(table, frame) <= multiset{FREE};
          assert Meaning(table)[frame] in At(table, frame);
        }
        StepRefines(table, request);
        if !holed {
          StepKeepsCanonical(table, request);
        }
      } else if Permitted(Meaning(table), request) {
        OnlyFreeMeaning(table, start, pages);
      }
    }
  }

  /** Adding by normalized frames is adding by bytes. */
  lemma AddedByBytes(before: Table, after: Table, start: nat, frameCount: nat)
    requires match NormalizeRegion(start, frameCount)
             case None => after == before
             case Some(region) => AddRecords(before, after, region.0, region.1)
    ensures RegionAdded(before, after, start, frameCount)
  {
    hide NormalizeFrom, InRegion;
    NormalizedRegion(start, frameCount, PAGE_SIZE);
  }

  lemma AddableByBytes(view: Frames, start: nat, frameCount: nat)
    ensures match NormalizeRegion(start, frameCount)
            case None => RegionUntracked(view, start, frameCount) && RegionFreed(view, view, start, frameCount)
            case Some(region) =>
              && (Permitted(view, Add(region.0, region.1)) <==> RegionUntracked(view, start, frameCount))
              && RegionFreed(view, Painted(view, region.0, region.1, FREE), start, frameCount)
  {
    hide NormalizeFrom, InRegion;
    NormalizedRegion(start, frameCount, PAGE_SIZE);
    NormalizedBounds(start, frameCount, PAGE_SIZE);
    match NormalizeRegion(start, frameCount)
    case None =>
    case Some(region) =>
      forall frame: nat {
        PaintedAt(view, region.0, region.1, FREE, frame);
      }
  }

  /** Reserving by normalized frames is reserving by bytes. */
  lemma ReservedByBytes(before: Table, after: Table, start: nat, frameCount: nat, owner: FrameOwner)
    requires match NormalizeReservedRegion(start, frameCount)
             case None => after == before
             case Some(region) => ReserveRecords(before, after, region.0, region.1, owner)
    ensures RegionReserved(before, after, start, frameCount, owner)
  {
    hide NormalizeFrom, InRegion;
    NormalizedRegion(start, frameCount, 0);
  }

  lemma ReservableByBytes(view: Frames, start: nat, frameCount: nat, owner: FrameOwner)
    ensures match NormalizeReservedRegion(start, frameCount)
            case None => RegionUnused(view, start, frameCount) && RegionTaken(view, view, start, frameCount, owner)
            case Some(region) =>
              && (Permitted(view, Reserve(region.0, region.1, owner)) <==> RegionUnused(view, start, frameCount))
              && RegionTaken(view, Painted(view, region.0, region.1, Info(Reserved, owner)), start, frameCount, owner)
  {
    hide NormalizeFrom, InRegion;
    NormalizedRegion(start, frameCount, 0);
    NormalizedBounds(start, frameCount, 0);
    match NormalizeReservedRegion(start, frameCount)
    case None =>
    case Some(region) =>
      forall frame: nat {
        PaintedAt(view, region.0, region.1, Info(Reserved, owner), frame);
      }
  }

  lemma PunchesByBytes(table: Table, start: nat, frameCount: nat)
    ensures RegionPunches(table, start, frameCount) <==>
            match NormalizeReservedRegion(start, frameCount)
            case None => false
            case Some(region) => PunchesHole(table, region.0, region.1)
  {
    hide NormalizeFrom, InRegion;
    NormalizedRegion(start, frameCount, 0);
    match NormalizeReservedRegion(start, frameCount)
    case None =>
    case Some(region) =>
      forall i | 0 <= i < |table|
        ensures HoleIn(table[i], region.0, region.1) <==> RegionStrictlyIn(table[i], start, frameCount)
      {
        StrictlyInByBytes(table[i], region.0, region.1, start, frameCount);
      }
  }

  lemma StrictlyInByBytes(entry: Tracked, first: nat, pages: nat, start: nat, frameCount: nat)
    requires forall frame: nat :: InRange(frame, first, pages) <==> InRegion(frame, start, frameCount)
    ensures HoleIn(entry, first, pages) <==> RegionStrictlyIn(entry, start, frameCount)
  {
    hide InRegion;
    if 0 < pages {
      assert InRange(first, first, pages) && InRange(first + pages - 1, first, pages);
    }
  }

  // ---------------------------------------------------------------- the table in place

  class PhysicalFrameAllocator {
    const tracked: array<Tracked>
    var count: nat
    /** A reservation has punched a hole into a free range. */
    ghost var holed: bool

    ghost predicate InBounds()
      reads this
    {
      tracked.Length == MAX_TRACKED_RANGES && count <= MAX_TRACKED_RANGES
    }

    ghost function Entries(): Table
      requires InBounds()
      reads this, tracked
    {
      tracked[..count]
    }

    /** Entries of the right shape, whether or not they overlap. */
    ghost predicate Formed()
      reads this, tracked
    {
      InBounds() && AllValid(Entries()) && EntriesOk(Entries())
    }

    ghost predicate Valid()
      reads this, tracked
    {
      InBounds() && TableOk(Entries()) && (!holed ==> Canonical(Entries()))
    }

    /** The state and owner of every tracked frame. */
    ghost function View(): Frames
      requires InBounds()
      reads this, tracked
    {
      Meaning(Entries())
    }

    /** A panic of the allocator's callers that its state accounts for: the tracking table is
        full, no frame is free, or no entry has a run of that many free frames. Unless two free
        entries touch, which takes a hole, the last means that no such run of frames exists. */
    ghost predicate Exhausted(reason: PanicReason)
      reads this, tracked
    {
      match reason
      case TrackingCapacityExhausted => count == MAX_TRACKED_RANGES
      case OutOfFrames => InBounds() && NoneFree(View())
      case NoFrameRun(pages) =>
        InBounds() && AllocatedStart(Entries(), pages).None? && (!FreeEntriesTouch(Entries()) ==> !SomeRunFree(View(), pages))
      case _ => false
    }

    lemma ApartUnlessHoled()
      requires Valid() && !holed
      ensures !FreeEntriesTouch(Entries())
    {
      CanonicalApart(Entries());
    }

    constructor ()
      ensures Valid() && View() == map[] && fresh(tracked) && !holed
    {
      holed := false;
      tracked := new Tracked[MAX_TRACKED_RANGES](_ => Range(0, 0, Info(Reserved, FirmwareReserved)));
      count := 0;
    }

    method InsertAt(index: nat, entry: Tracked) returns (r: Outcome<()>)
      requires InBounds() && index <= count
      modifies this`count, tracked
      ensures r.Panic? <==> old(count) == MAX_TRACKED_RANGES
      ensures r.Panic? ==> r.reason == TrackingCapacityExhausted && Exhausted(r.reason)
      ensures r.Done? ==> InBounds() && count == old(count) + 1 && Entries() == InsertedAt(old(Entries()), index, entry)
    {
      if count >= MAX_TRACKED_RANGES {
        return Panic(TrackingCapacityExhausted);
      }
      ShiftIn(tracked, count, index, entry);
      count := count + 1;
      return Done(());
    }

    method SetAt(index: nat, entry: Tracked)
      requires InBounds() && index < count
      modifies tracked
      ensures InBounds() && Entries() == old(Entries())[index := entry]
    {
      tracked[index] := entry;
    }

    method Merge()
      requires InBounds()
      modifies this`count, tracked
      ensures InBounds() && Entries() == Coalesce(old(Entries()))
    {
      count := MergeAdjacent(tracked, count);
    }

    /** Cut the entry at `index` around the given frames and tag them. */
    method Split(index: nat, start: nat, pages: nat, tag: Info, rest: Info) returns (r: Outcome<()>)
      requires InBounds() && index < count && Holds(Entries()[index], start, pages)
      modifies this`count, tracked
      ensures r.Panic? <==> old(count) - 1 + CutPieces(old(Entries())[index], start, pages) > MAX_TRACKED_RANGES
      ensures r.Panic? ==> r.reason == TrackingCapacityExhausted && Exhausted(r.reason)
      ensures r.Done? ==> InBounds()
      ensures r.Done? ==>
                Entries() == Spliced(old(Entries()), index, SplitEntry(old(Entries())[index], start, pages, tag, rest))
    {
      hide Spliced, SplitEntry;
      ghost var table := Entries();
      var entry := tracked[index];
      var before, after := start - entry.start, entry.End() - (start + pages);
      var low, mid, high := Range(entry.start, before, rest), Range(start, pages, tag), Range(start + pages, after, rest);
      ghost var pieces := [mid];
      SetAt(index, mid);
      SpliceOne(table, index, mid);
      if before > 0 {
        SetAt(index, low);
        assert Entries() == table[index := low];
        var _ :- InsertAt(index + 1, mid);
        SpliceTwo(table, index, low, mid);
        pieces := [low, mid];
        if after > 0 {
          var _ :- InsertAt(index + 2, high);
          SpliceThree(table, index, low, mid, high);
          pieces := [low, mid, high];
        }
      } else if after > 0 {
        var _ :- InsertAt(index + 1, high);
        SpliceTwo(table, index, mid, high);
        pieces := [mid, high];
      }
      assert Entries() == Spliced(table, index, pieces);
      assert pieces == SplitEntry(entry, start, pages, tag, rest) by {
        SplitForms(entry, start, pages, tag, rest);
      }
      return Done(());
    }

    method Retag(index: nat, start: nat, pages: nat, tag: Info, rest: Info) returns (r: Outcome<()>)
      requires InBounds() && index < count && Holds(Entries()[index], start, pages)
      modifies this`count, tracked
      ensures r.Panic? <==> old(count) - 1 + CutPieces(old(Entries())[index], start, pages) > MAX_TRACKED_RANGES
      ensures r.Panic? ==> r.reason == TrackingCapacityExhausted && Exhausted(r.reason)
      ensures r.Done? ==> InBounds() && Entries() == Retagged(old(Entries()), index, start, pages, tag, rest)
    {
      var _ :- Split(index, start, pages, tag, rest);
      Merge();
      return Done(());
    }

    /** Index of the first entry the frames can be cut from, the count when there is none. */
    method FindFreeHolding(start: nat, pages: nat) returns (index: nat)
      requires InBounds()
      ensures index <= count && index == FirstIndex(Entries(), FreeHolding(start, pages), 0)
    {
      index := 0;
      while index < count && !(tracked[index].tag.state == Free && Holds(tracked[index], start, pages))
        invariant index <= count
        invariant forall i :: 0 <= i < index ==> !FreeHolding(start, pages)(Entries()[i])
      {
        assert !FreeHolding(start, pages)(Entries()[index]);
        index := index + 1;
      }
      assert index < count ==> FreeHolding(start, pages)(Entries()[index]);
    }

    method MarkRangeUsed(start: nat, pages: nat, owner: FrameOwner) returns (r: Outcome<bool>)
      requires Valid()
      modifies this`count, tracked
      ensures r.Panic? <==> CutOverflows(old(Entries()), FreeHolding(start, pages), start, pages, MAX_TRACKED_RANGES)
      ensures r.Panic? ==> r.reason == TrackingCapacityExhausted && Exhausted(r.reason)
      ensures r.Done? ==> InBounds()
      ensures r.Done? ==> match MarkedUsed(old(Entries()), start, pages, owner)
                          case None => !r.value && Entries() == old(Entries())
                          case Some(after) => r.value && Entries() == after
    {
      hide Retagged, TableOk, FirstIndex;
      if CheckedEnd(start, pages).None? {
        return Done(false);
      }
      var index := FindFreeHolding(start, pages);
      if index == count {
        return Done(false);
      }
      var _ :- Retag(index, start, pages, Info(Used, owner), FREE);
      return Done(true);
    }

    /** Index of the first entry the frames can be cut from, the count when there is none. */
    method FindUsedHolding(start: nat, pages: nat, owner: FrameOwner) returns (index: nat)
      requires InBounds()
      ensures index <= count && index == FirstIndex(Entries(), UsedHolding(start, pages, owner), 0)
    {
      index := 0;
      while index < count && !(tracked[index].tag == Info(Used, owner) && Holds(tracked[index], start, pages))
        invariant index <= count
        invariant forall i :: 0 <= i < index ==> !UsedHolding(start, pages, owner)(Entries()[i])
      {
        assert !UsedHolding(start, pages, owner)(Entries()[index]);
        index := index + 1;
      }
      assert index < count ==> UsedHolding(start, pages, owner)(Entries()[index]);
    }

    method MarkRangeFree(start: nat, pages: nat, owner: FrameOwner) returns (r: Outcome<bool>)
      requires Valid()
      modifies this`count, tracked
      ensures r.Panic? <==> CutOverflows(old(Entries()), UsedHolding(start, pages, owner), start, pages, MAX_TRACKED_RANGES)
      ensures r.Panic? ==> r.reason == TrackingCapacityExhausted && Exhausted(r.reason)
      ensures r.Done? ==> InBounds()
      ensures r.Done? ==> match MarkedFree(old(Entries()), start, pages, owner)
                          case None => !r.value && Entries() == old(Entries())
                          case Some(after) => r.value && Entries() == after
    {
      hide Retagged, TableOk, FirstIndex;
      if CheckedEnd(start, pages).None? {
        return Done(false);
      }
      var index := FindUsedHolding(start, pages, owner);
      if index == count {
        return Done(false);
      }
      var _ :- Retag(index, start, pages, FREE, Info(Used, owner));
      return Done(true);
    }

    /** Index of the first free entry that is long enough, the count when there is none. */
    method FindFreeWithPages(pages: nat) returns (index: nat)
      requires InBounds()
      ensures index <= count && index == FirstIndex(Entries(), FreeWithPages(pages), 0)
    {
      index := 0;
      while index < count && !(tracked[index].tag.state == Free && pages <= tracked[index].pages)
        invariant index <= count
        invariant forall i :: 0 <= i < index ==> !FreeWithPages(pages)(Entries()[i])
      {
        assert !FreeWithPages(pages)(Entries()[index]);
        index := index + 1;
      }
      assert index < count ==> FreeWithPages(pages)(Entries()[index]);
    }

    /** First fit: the frames handed out were free, none is frame 0, and nothing else changes. */
    method AllocateFramesFor(pages: nat, owner: FrameOwner) returns (r: Outcome<Option<nat>>)
      requires Valid() && 0 < pages && owner != Nobody
      modifies this`count, tracked
      ensures r.Panic? <==>
                var start := AllocatedStart(old(Entries()), pages);
                start.Some? && CutOverflows(old(Entries()), FreeHolding(start.value, pages), start.value, pages, MAX_TRACKED_RANGES)
      ensures r.Panic? ==> r.reason == TrackingCapacityExhausted && Exhausted(r.reason)
      ensures r.Done? && r.value.None? ==> Exhausted(NoFrameRun(pages))
      ensures r.Done? ==> Valid() && r.value == AllocatedStart(old(Entries()), pages)
      ensures r.Done? ==> Entries() == AllocatedTable(old(Entries()), pages, owner)
      ensures r.Done? && r.value.None? ==> View() == old(View())
      ensures r.Done? && r.value.Some? ==>
                && 1 <= r.value.value && AllHave(old(View()), r.value.value, pages, FREE)
                && View() == Painted(old(View()), r.value.value, pages, Info(Used, owner))
                && (!holed ==> LowestRun(old(View()), r.value.value, pages))
    {
      hide TableOk, Canonical, FirstIndex, SomeRunFree, LowestRun, FreeEntriesTouch, CutOverflows;
      AllocationRefines(Entries(), pages, owner);
      if !holed {
        if AllocatedStart(Entries(), pages).Some? {
          AllocationLowest(Entries(), pages);
        }
        AllocationCanonical(Entries(), pages, owner);
      }
      if !FreeEntriesTouch(Entries()) {
        AllocationComplete(Entries(), pages);
      }
      var index := FindFreeWithPages(pages);
      if index == count {
        return Done(None);
      }
      CandidateMarks(Entries(), index, pages, owner);
      var start := tracked[index].start;
      var marked :- MarkRangeUsed(start, pages, owner);
      assert marked;
      return Done(Some(start));
    }

    /** Frames go back exactly when one entry used by `owner` holds them all. */
    method FreeFramesFor(start: nat, pages: nat, owner: FrameOwner) returns (r: Outcome<bool>)
      requires Valid() && 0 < pages
      modifies this`count, tracked
      ensures r.Panic? <==>
                owner != Nobody && CutOverflows(old(Entries()), UsedHolding(start, pages, owner), start, pages, MAX_TRACKED_RANGES)
      ensures r.Panic? ==> r.reason == TrackingCapacityExhausted && Exhausted(r.reason)
      ensures r.Done? ==> Valid() && r.value == FreeAccepted(old(Entries()), start, pages, owner)
      ensures r.Done? ==> Entries() == FreedTable(old(Entries()), start, pages, owner)
      ensures r.Done? && !r.value ==> View() == old(View())
      ensures r.Done? && r.value ==>
                && AllHave(old(View()), start, pages, Info(Used, owner))
                && View() == Painted(old(View()), start, pages, FREE)
    {
      hide TableOk, Canonical, FirstIndex, CutOverflows;
      ReleaseRefines(Entries(), start, pages, owner);
      if !holed {
        ReleaseCanonical(Entries(), start, pages, owner);
      }
      if owner == Nobody {
        return Done(false);
      }
      r := MarkRangeFree(start, pages, owner);
    }

    method AllocateFrameFor(owner: FrameOwner) returns (r: Outcome<Option<nat>>)
      requires Valid() && owner != Nobody
      modifies this`count, tracked
      ensures r.Panic? ==> r.reason == TrackingCapacityExhausted && Exhausted(r.reason)
      ensures r.Done? ==> Valid()
      ensures r.Done? && r.value.None? ==>
                View() == old(View()) && NoneFree(View())
      ensures r.Done? && r.value.Some? ==>
                && 1 <= r.value.value && r.value.value in old(View()) && old(View())[r.value.value] == FREE
                && View() == old(View())[r.value.value := Info(Used, owner)]
    {
      ghost var before := View();
      r := AllocateFramesFor(1, owner);
      if r.Done? && r.value.Some? {
        PaintedOne(before, r.value.value, Info(Used, owner));
        assert InRange(r.value.value, r.value.value, 1);
      } else if r.Done? {
        forall f | f in before ensures before[f] != FREE {
          FreeFrameFound(old(Entries()), f);
        }
      }
    }

    method FreeFrameFor(frame: nat, owner: FrameOwner) returns (r: Outcome<bool>)
      requires Valid() && owner != Nobody
      modifies this`count, tracked
      ensures r.Panic? ==> r.reason == TrackingCapacityExhausted && Exhausted(r.reason)
      ensures r.Panic? ==> frame in old(View()) && old(View())[frame] == Info(Used, owner)
      ensures r.Done? ==> Valid()
      ensures r.Done? ==> r.value == (frame in old(View()) && old(View())[frame] == Info(Used, owner))
      ensures r.Done? ==> View() == if r.value then old(View())[frame := FREE] else old(View())
    {
      SingleRelease(Entries(), frame, owner);
      PaintedOne(View(), frame, FREE);
      r := FreeFramesFor(frame, 1, owner);
    }

    /** Remove the reserved frames from the entry at `index` if it is free; the number of
        entries that now stand in its place. */
    method CarveAt(index: nat, start: nat, pages: nat) returns (r: Outcome<nat>)
      requires InBounds() && index < count
      modifies this`count, tracked
      ensures r.Panic? ==> r.reason == TrackingCapacityExhausted && Exhausted(r.reason)
      ensures r.Done? ==> InBounds()
      ensures r.Done? ==> r.value == |CarvedEntry(old(Entries())[index], start, pages)|
      ensures r.Done? ==> Entries() == Spliced(old(Entries()), index, CarvedEntry(old(Entries())[index], start, pages))
    {
      ghost var table := Entries();
      var entry := tracked[index];
      var from, to := Max(entry.start, start), Min(entry.End(), start + pages);
      ghost var pieces := [entry];
      SpliceOne(table, index, entry);
      if entry.tag.state != Free || from >= to {
        assert Entries() == Spliced(table, index, pieces);
        return Done(1);
      }
      var before, after := from - entry.start, entry.End() - to;
      if before > 0 && after > 0 {
        SetAt(index, entry.(pages := before));
        var _ :- InsertAt(index + 1, Range(to, after, FREE));
        SpliceTwo(table, index, entry.(pages := before), Range(to, after, FREE));
        pieces := [entry.(pages := before), Range(to, after, FREE)];
      } else if before > 0 {
        SetAt(index, entry.(pages := before));
        SpliceOne(table, index, entry.(pages := before));
        pieces := [entry.(pages := before)];
      } else if after > 0 {
        SetAt(index, entry.(start := to, pages := after));
        SpliceOne(table, index, entry.(start := to, pages := after));
        pieces := [entry.(start := to, pages := after)];
      } else {
        RemoveAt(index);
        SpliceNone(table, index);
        pieces := [];
      }
      assert pieces == CarvedEntry(entry, start, pages);
      return Done((if before > 0 then 1 else 0) + (if after > 0 then 1 else 0));
    }

    method RemoveAt(index: nat)
      requires InBounds() && index < count
      modifies this`count, tracked
      ensures InBounds() && count == old(count) - 1 && Entries() == RemovedAt(old(Entries()), index)
    {
      ShiftOut(tracked, count, index);
      count := count - 1;
    }

    method RemoveReservedFromFreeRanges(start: nat, pages: nat) returns (r: Outcome<()>)
      requires InBounds() && CheckedEnd(start, pages).Some?
      modifies this`count, tracked
      ensures r.Panic? ==> r.reason == TrackingCapacityExhausted && Exhausted(r.reason)
      ensures r.Done? ==> InBounds() && Entries() == Coalesce(Carved(old(Entries()), start, pages))
    {
      ghost var before := Entries();
      var index: nat := 0;
      assert Entries()[0..] == Entries();
      while index < count
        invariant InBounds() && index <= count
        invariant Carved(before, start, pages) == Entries()[..index] + Carved(Entries()[index..], start, pages)
        decreases count - index
      {
        ghost var table := Entries();
        var kept :- CarveAt(index, start, pages);
        CarveAdvances(table, index, start, pages);
        index := index + kept;
      }
      assert Entries()[index..] == [] && Entries()[..index] == Entries();
      assert Entries() + [] == Entries();
      Merge();
      return Done(());
    }

    /** Index of the first entry that starts at or after `start`. */
    method FindPosition(start: nat) returns (index: nat)
      requires InBounds()
      ensures index == FirstIndex(Entries(), FirstAtOrAfter(start), 0)
    {
      index := 0;
      while index < count && tracked[index].start < start
        invariant index <= count
        invariant forall i :: 0 <= i < index ==> !FirstAtOrAfter(start)(Entries()[i])
      {
        assert !FirstAtOrAfter(start)(Entries()[index]);
        index := index + 1;
      }
      assert index < count ==> FirstAtOrAfter(start)(Entries()[index]);
    }

    method InsertTrackedRange(start: nat, pages: nat, tag: Info) returns (r: Outcome<()>)
      requires InBounds()
      modifies this`count, tracked
      ensures r.Panic? ==> r.reason == TrackingCapacityExhausted && Exhausted(r.reason) && old(count) == MAX_TRACKED_RANGES
      ensures r.Done? ==> InBounds() && Entries() == Inserted(old(Entries()), Range(start, pages, tag))
    {
      hide Coalesce, FirstIndex, TableOk;
      if pages == 0 {
        return Done(());
      }
      var index := FindPosition(start);
      var _ :- InsertAt(index, Range(start, pages, tag));
      Merge();
      return Done(());
    }

    /** Register a conventional memory region, given in bytes. A region that overlaps a tracked one is
        inserted all the same: its frames are then recorded twice, and the table is valid no more. */
    method AddRegion(start: nat, frameCount: nat) returns (r: Outcome<()>)
      requires Formed()
      modifies this`count, tracked
      ensures r.Panic? ==> r.reason == TrackingCapacityExhausted && Exhausted(r.reason) && old(count) == MAX_TRACKED_RANGES
      ensures r.Done? ==> Formed()
      ensures r.Done? ==> match NormalizeRegion(start, frameCount)
                          case None => Entries() == old(Entries())
                          case Some(region) =>
                            && Entries() == Step(old(Entries()), Add(region.0, region.1))
                            && AddRecords(old(Entries()), Entries(), region.0, region.1)
                            && (old(Valid()) ==> (Valid() <==> Permitted(old(View()), Add(region.0, region.1))))
                            && (Valid() && old(Valid()) ==> View() == Painted(old(View()), region.0, region.1, FREE))
      ensures r.Done? ==> RegionAdded(old(Entries()), Entries(), start, frameCount)
      ensures r.Done? && old(Valid()) ==> (Valid() <==> RegionUntracked(old(View()), start, frameCount))
      ensures r.Done? && old(Valid()) && Valid() ==> RegionFreed(old(View()), View(), start, frameCount)
    {
      hide TableOk, Canonical, Permitted, AddRecords, RegionAdded, RegionUntracked, RegionFreed, NormalizeFrom;
      ghost var before := Entries();
      AddableByBytes(View(), start, frameCount);
      match NormalizeRegion(start, frameCount)
      case None =>
        AddedByBytes(before, Entries(), start, frameCount);
        return Done(());
      case Some(region) =>
        NormalizedBounds(start, frameCount, PAGE_SIZE);
        AddStep(Entries(), region.0, region.1, holed, Valid());
        r := InsertTrackedRange(region.0, region.1, FREE);
        if r.Done? {
          AddedByBytes(before, Entries(), start, frameCount);
        }
    }

    /** Reserve a region, given in bytes, and take its frames out of the free ranges. Frames that are in
        use or reserved already are recorded twice afterwards, and the table is valid no more. */
    method ReserveRegionFor(start: nat, frameCount: nat, owner: FrameOwner) returns (r: Outcome<()>)
      requires Formed()
      modifies this, tracked
      ensures r.Panic? ==> r.reason == TrackingCapacityExhausted && Exhausted(r.reason)
      ensures r.Done? ==> Formed()
      ensures holed <==>
                || old(holed)
                || match NormalizeReservedRegion(start, frameCount) {
                     case None => false
                     case Some(region) => PunchesHole(old(Entries()), region.0, region.1)
                   }
      ensures r.Done? ==> match NormalizeReservedRegion(start, frameCount)
                          case None => Entries() == old(Entries())
                          case Some(region) =>
                            && Entries() == Step(old(Entries()), Reserve(region.0, region.1, owner))
                            && ReserveRecords(old(Entries()), Entries(), region.0, region.1, owner)
                            && (old(Valid()) ==> (Valid() <==> Permitted(old(View()), Reserve(region.0, region.1, owner))))
                            && (Valid() && old(Valid()) ==>
                                  View() == Painted(old(View()), region.0, region.1, Info(Reserved, owner)))
      ensures holed <==> old(holed) || RegionPunches(old(Entries()), start, frameCount)
      ensures r.Done? ==> RegionReserved(old(Entries()), Entries(), start, frameCount, owner)
      ensures r.Done? && old(Valid()) ==> (Valid() <==> RegionUnused(old(View()), start, frameCount))
      ensures r.Done? && old(Valid()) && Valid() ==> RegionTaken(old(View()), View(), start, frameCount, owner)
    {
      hide TableOk, Canonical, Permitted, ReserveRecords, PunchesHole, NormalizeFrom;
      hide RegionPunches, RegionReserved, RegionUnused, RegionTaken;
      ghost var before := Entries();
      PunchesByBytes(before, start, frameCount);
      ReservableByBytes(View(), start, frameCount, owner);
      match NormalizeReservedRegion(start, frameCount)
      case None =>
        ReservedByBytes(before, Entries(), start, frameCount, owner);
        return Done(());
      case Some(region) =>
        NormalizedBounds(start, frameCount, 0);
        ReserveStep(Entries(), region.0, region.1, owner, holed, Valid());
        holed := holed || PunchesHole(Entries(), region.0, region.1);
        var _ :- InsertTrackedRange(region.0, region.1, Info(Reserved, owner));
        r := RemoveReservedFromFreeRanges(region.0, region.1);
        if r.Done? {
          ReservedByBytes(before, Entries(), start, frameCount, owner);
        }
    }

    /** Page totals are the numbers of frames recorded in each state. */
    method Statistics() returns (reserved: nat, free: nat, used: nat)
      requires Valid()
      ensures reserved == |FramesWhere(View(), (i: Info) => i.state == Reserved)|
      ensures free == |FramesWhere(View(), (i: Info) => i.state == Free)|
      ensures used == |FramesWhere(View(), (i: Info) => i.state == Used)|
    {
      reserved := PagesMatching((i: Info) => i.state == Reserved);
      free := PagesMatching((i: Info) => i.state == Free);
      used := PagesMatching((i: Info) => i.state == Used);
    }

    method PagesOwnedBy(owner: FrameOwner) returns (pages: nat)
      requires Valid()
      ensures pages == |FramesWhere(View(), (i: Info) => i.owner == owner)|
    {
      pages := PagesMatching((i: Info) => i.owner == owner);
    }

    method PagesMatching(wanted: Info -> bool) returns (pages: nat)
      requires Valid()
      ensures pages == |FramesWhere(View(), wanted)|
    {
      pages := 0;
      PagesBounded(Entries(), wanted);
      for index := 0 to count
        invariant pages == PagesWhere(Entries()[..index], wanted)
      {
        PagesPrefix(Entries(), wanted, index);
        if wanted(tracked[index].tag) {
          pages := SaturatingAdd(pages, tracked[index].pages);
        }
      }
      assert Entries()[..count] == Entries();
      PagesCountFrames(Entries(), wanted);
    }
  }

  lemma CarveAdvances(table: Table, index: nat, start: nat, pages: nat)
    requires index < |table|
    ensures var pieces := CarvedEntry(table[index], start, pages);
            var after := Spliced(table, index, pieces);
            && after[..index + |pieces|] == table[..index] + pieces
            && table[..index] + Carved(table[index..], start, pages)
               == after[..index + |pieces|] + Carved(after[index + |pieces|..], start, pages)
  {
    var pieces := CarvedEntry(table[index], start, pages);
    var after := Spliced(table, index, pieces);
    assert after[..index + |pieces|] == table[..index] + pieces;
    assert after[index + |pieces|..] == table[index + 1..];
    assert table[index..][1..] == table[index + 1..];
    AppendAssociates(table[..index], pieces, Carved(table[index + 1..], start, pages));
  }

  lemma SpliceNone(table: Table, index: nat)
    requires index < |table|
    ensures RemovedAt(table, index) == Spliced(table, index, [])
  {
  }

  lemma PaintedOne(frames: Frames, frame: nat, tag: Info)
    ensures Painted(frames, frame, 1, tag) == frames[frame := tag]
  {
    forall f: nat
      ensures f in Painted(frames, frame, 1, tag) <==> f in frames[frame := tag]
      ensures f in frames[frame := tag] ==> Painted(frames, frame, 1, tag)[f] == frames[frame := tag][f]
    {
      PaintedAt(frames, frame, 1, tag, f);
    }
    SameMap(Painted(frames, frame, 1, tag), frames[frame := tag]);
  }

  lemma FreeFrameFound(table: Table, frame: nat)
    requires AllValid(table) && AllocatedStart(table, 1).None? && frame in Meaning(table)
    ensures Meaning(table)[frame] != FREE
  {
    MeaningSound(table, frame);
    var index := AtWitness(table, frame, Meaning(table)[frame]);
    assert table[index].Valid();
    assert !FreeWithPages(1)(table[index]);
  }

  lemma SplitForms(entry: Tracked, start: nat, pages: nat, tag: Info, rest: Info)
    requires Holds(entry, start, pages)
    ensures var before, after := start - entry.start, entry.End() - (start + pages);
            var low, mid, high := Range(entry.start, before, rest), Range(start, pages, tag), Range(start + pages, after, rest);
            SplitEntry(entry, start, pages, tag, rest) ==
              if before > 0 then (if after > 0 then [low, mid, high] else [low, mid])
              else (if after > 0 then [mid, high] else [mid])
  {
  }

  lemma SpliceOne(table: Table, index: nat, a: Tracked)
    requires index < |table|
    ensures table[index := a] == Spliced(table, index, [a])
  {
  }

  lemma SpliceTwo(table: Table, index: nat, a: Tracked, b: Tracked)
    requires index < |table|
    ensures InsertedAt(table[index := a], index + 1, b) == Spliced(table, index, [a, b])
  {
  }

  lemma SpliceThree(table: Table, index: nat, a: Tracked, b: Tracked, c: Tracked)
    requires index < |table|
    ensures InsertedAt(Spliced(table, index, [a, b]), index + 2, c) == Spliced(table, index, [a, b, c])
  {
  }
}
