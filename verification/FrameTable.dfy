/** What the physical frame allocator's table operations compute, as functions on the
    sequence of tracked ranges, and what they mean for each frame. */
module FrameTable {
  import opened Machine
  import opened Ranges
  import opened RangeMaps

  datatype FrameState = Reserved | Free | Used

  datatype FrameOwner =
    | Nobody
    | FirmwareReserved
    | KernelImage
    | Mmio
    | GuardPage
    | UnknownUsed
    | PageTable
    | KernelHeap
    | KernelStack
    | FramebufferBackbuffer
    | AhciDma
    | DynamicKernelMapping
    | UserStack
    | UserElf
    | UserHeap
    | UserMapping

  datatype Info = Info(state: FrameState, owner: FrameOwner)

  const FREE := Info(Free, Nobody)

  type Tracked = Range<Info>
  type Table = seq<Tracked>

  /** Only reserved entries hold frame 0; free entries have no owner, used entries have one. */
  ghost predicate EntryOk(start: nat, tag: Info) {
    && (tag.state != Reserved ==> 1 <= start)
    && (tag.state == Free ==> tag.owner == Nobody)
    && (tag.state == Used ==> tag.owner != Nobody)
  }

  ghost predicate EntriesOk(table: Table) {
    forall i :: 0 <= i < |table| ==> EntryOk(table[i].start, table[i].tag)
  }

  ghost predicate TableOk(table: Table) {
    AllValid(table) && EntriesOk(table) && Exclusive(table)
  }

  // ---------------------------------------------------------------- operations

  function Piece(start: nat, pages: nat, tag: Info): seq<Tracked> {
    if 0 < pages then [Range(start, pages, tag)] else []
  }

  /** The entry cut around [start, start + pages), which gets `tag`; the rest gets `rest`. */
  function SplitEntry(entry: Tracked, start: nat, pages: nat, tag: Info, rest: Info): seq<Tracked>
    requires Holds(entry, start, pages)
  {
    Piece(entry.start, start - entry.start, rest)
    + [Range(start, pages, tag)]
    + Piece(start + pages, entry.End() - (start + pages), rest)
  }

  function Spliced(table: Table, index: nat, pieces: seq<Tracked>): Table
    requires index < |table|
  {
    table[..index] + pieces + table[index + 1..]
  }

  function Retagged(table: Table, index: nat, start: nat, pages: nat, tag: Info, rest: Info): Table
    requires index < |table| && Holds(table[index], start, pages)
  {
    Coalesce(Spliced(table, index, SplitEntry(table[index], start, pages, tag, rest)))
  }

  /** First entry from `index` on that satisfies `wanted`; the length when there is none. */
  function FirstIndex(table: Table, wanted: Tracked -> bool, index: nat): (r: nat)
    requires index <= |table|
    ensures index <= r <= |table|
    ensures r < |table| ==> wanted(table[r])
    ensures forall i :: index <= i < r ==> !wanted(table[i])
    decreases |table| - index
  {
    if index == |table| || wanted(table[index]) then index else FirstIndex(table, wanted, index + 1)
  }

  function FreeHolding(start: nat, pages: nat): Tracked -> bool {
    (e: Tracked) => e.tag.state == Free && Holds(e, start, pages)
  }

  function UsedHolding(start: nat, pages: nat, owner: FrameOwner): Tracked -> bool {
    (e: Tracked) => e.tag == Info(Used, owner) && Holds(e, start, pages)
  }

  function FreeWithPages(pages: nat): Tracked -> bool {
    (e: Tracked) => e.tag.state == Free && pages <= e.pages
  }

  function FirstAtOrAfter(start: nat): Tracked -> bool {
    (e: Tracked) => start <= e.start
  }

  /** `mark_range_used`: absent when no free entry holds the range. */
  function MarkedUsed(table: Table, start: nat, pages: nat, owner: FrameOwner): Option<Table> {
    var index := FirstIndex(table, FreeHolding(start, pages), 0);
    if CheckedEnd(start, pages).None? || index == |table| then None
    else Some(Retagged(table, index, start, pages, Info(Used, owner), FREE))
  }

  /** How many entries a cut leaves in place of one. */
  function CutPieces(entry: Tracked, start: nat, pages: nat): nat {
    1 + (if entry.start < start then 1 else 0) + (if start + pages < entry.End() then 1 else 0)
  }

  /** Cutting the range out of the first entry that holds it as `wanted` exceeds `capacity` entries. */
  predicate CutOverflows(table: Table, wanted: Tracked -> bool, start: nat, pages: nat, capacity: nat) {
    var index := FirstIndex(table, wanted, 0);
    CheckedEnd(start, pages).Some? && index < |table| && |table| - 1 + CutPieces(table[index], start, pages) > capacity
  }

  /** `mark_range_free`: absent when no entry used by `owner` holds the range. */
  function MarkedFree(table: Table, start: nat, pages: nat, owner: FrameOwner): Option<Table> {
    var index := FirstIndex(table, UsedHolding(start, pages, owner), 0);
    if CheckedEnd(start, pages).None? || index == |table| then None
    else Some(Retagged(table, index, start, pages, FREE, Info(Used, owner)))
  }

  /** `insert_tracked_range`. */
  function Inserted(table: Table, entry: Tracked): Table {
    if entry.pages == 0 then table
    else Coalesce(InsertedAt(table, FirstIndex(table, FirstAtOrAfter(entry.start), 0), entry))
  }

  /** What is left of one entry when the free frames of [start, start + pages) are reserved. */
  function CarvedEntry(entry: Tracked, start: nat, pages: nat): seq<Tracked> {
    var from, to := Max(entry.start, start), Min(entry.End(), start + pages);
    if entry.tag.state != Free || from >= to then [entry]
    else
      Piece(entry.start, from - entry.start, entry.tag)
      + Piece(to, entry.End() - to, if entry.start < from then FREE else entry.tag)
  }

  function Carved(table: Table, start: nat, pages: nat): Table {
    if table == [] then [] else CarvedEntry(table[0], start, pages) + Carved(table[1..], start, pages)
  }

  /** `reserve_region_for` on a normalized region. */
  function ReservedTable(table: Table, start: nat, pages: nat, owner: FrameOwner): Table {
    Coalesce(Carved(Inserted(table, Range(start, pages, Info(Reserved, owner))), start, pages))
  }

  // ---------------------------------------------------------------- meaning of each operation

  lemma {:induction false} CoalesceFromEntriesOk(current: Tracked, rest: Table)
    requires EntryOk(current.start, current.tag) && EntriesOk(rest)
    ensures EntriesOk(CoalesceFrom(current, rest))
    decreases |rest|
  {
    if rest != [] {
      var next := if Joins(current, rest[0]) then Join(current, rest[0]) else rest[0];
      CoalesceFromEntriesOk(next, rest[1..]);
    }
  }

  lemma CoalesceEntriesOk(table: Table)
    requires EntriesOk(table)
    ensures EntriesOk(Coalesce(table))
  {
    if table != [] {
      CoalesceFromEntriesOk(table[0], table[1..]);
    }
  }

  lemma SplitEntryAt(entry: Tracked, start: nat, pages: nat, tag: Info, rest: Info, frame: nat)
    requires Holds(entry, start, pages) && entry.tag == rest
    ensures At(SplitEntry(entry, start, pages, tag, rest), frame)
         == if InRange(frame, start, pages) then multiset{tag} else At([entry], frame)
  {
    var left := Piece(entry.start, start - entry.start, rest);
    var mid := [Range(start, pages, tag)];
    var right := Piece(start + pages, entry.End() - (start + pages), rest);
    calc {
      At(left + mid + right, frame);
      { AtConcat(left + mid, right, frame); }
      At(left + mid, frame) + At(right, frame);
      { AtConcat(left, mid, frame); }
      At(left, frame) + At(mid, frame) + At(right, frame);
    }
    PieceAt(entry.start, start - entry.start, rest, frame);
    PieceAt(start + pages, entry.End() - (start + pages), rest, frame);
    AtSingle(mid[0], frame);
    AtSingle(entry, frame);
  }

  lemma PieceAt(start: nat, pages: nat, tag: Info, frame: nat)
    ensures At(Piece(start, pages, tag), frame)
         == if InRange(frame, start, pages) then multiset{tag} else multiset{}
  {
    AtSingle(Range(start, pages, tag), frame);
  }

  lemma SplicedAt(table: Table, index: nat, start: nat, pages: nat, tag: Info, rest: Info)
    requires index < |table| && Holds(table[index], start, pages) && table[index].tag == rest
    requires Exclusive(table)
    ensures Repainted(table, Spliced(table, index, SplitEntry(table[index], start, pages, tag, rest)), start, pages, tag)
  {
    var pieces := SplitEntry(table[index], start, pages, tag, rest);
    forall frame: nat
      ensures At(Spliced(table, index, pieces), frame)
           == if InRange(frame, start, pages) then multiset{tag} else At(table, frame)
    {
      AtSpliced(table, index, pieces, frame);
      SplitEntryAt(table[index], start, pages, tag, rest, frame);
      if InRange(frame, start, pages) {
        OthersEmpty(table, index, frame);
      }
    }
  }

  lemma OthersEmpty(table: Table, index: nat, frame: nat)
    requires Exclusive(table) && index < |table| && table[index].Covers(frame)
    ensures At(table[..index], frame) == multiset{} && At(table[index + 1..], frame) == multiset{}
  {
    AtSpliced(table, index, [], frame);
    AtSingle(table[index], frame);
    assert |At(table, frame)| <= 1;
  }

  lemma SplicedOk(table: Table, index: nat, start: nat, pages: nat, tag: Info, rest: Info)
    requires AllValid(table) && EntriesOk(table)
    requires index < |table| && Holds(table[index], start, pages) && table[index].tag == rest && 0 < pages
    requires EntryOk(start, tag) && EntryOk(start, rest)
    ensures AllValid(Spliced(table, index, SplitEntry(table[index], start, pages, tag, rest)))
    ensures EntriesOk(Spliced(table, index, SplitEntry(table[index], start, pages, tag, rest)))
  {
  }

  /** Marking part of an entry keeps the table well formed and repaints exactly those frames. */
  lemma RetaggedMeaning(table: Table, index: nat, start: nat, pages: nat, tag: Info, rest: Info)
    requires TableOk(table)
    requires index < |table| && Holds(table[index], start, pages) && table[index].tag == rest && 0 < pages
    requires EntryOk(start, tag) && EntryOk(start, rest)
    ensures TableOk(Retagged(table, index, start, pages, tag, rest))
    ensures Repainted(table, Retagged(table, index, start, pages, tag, rest), start, pages, tag)
  {
    var spliced := Spliced(table, index, SplitEntry(table[index], start, pages, tag, rest));
    SplicedOk(table, index, start, pages, tag, rest);
    SplicedAt(table, index, start, pages, tag, rest);
    CoalesceMeaning(spliced);
    CoalesceEntriesOk(spliced);
    RepaintedExclusive(table, Coalesce(spliced), start, pages, tag);
  }

  lemma FreeEntryTag(table: Table, index: nat)
    requires EntriesOk(table) && index < |table| && table[index].tag.state == Free
    ensures table[index].tag == FREE && 1 <= table[index].start
  {
    assert EntryOk(table[index].start, table[index].tag);
  }

  lemma MarkedUsedMeaning(table: Table, start: nat, pages: nat, owner: FrameOwner)
    requires TableOk(table) && 0 < pages && owner != Nobody && MarkedUsed(table, start, pages, owner).Some?
    ensures 1 <= start && AllTagged(table, start, pages, FREE)
    ensures TableOk(MarkedUsed(table, start, pages, owner).value)
    ensures Repainted(table, MarkedUsed(table, start, pages, owner).value, start, pages, Info(Used, owner))
  {
    var index := FirstIndex(table, FreeHolding(start, pages), 0);
    FreeEntryTag(table, index);
    HeldTagged(table, index, start, pages);
    RetaggedMeaning(table, index, start, pages, Info(Used, owner), FREE);
  }

  lemma MarkedFreeMeaning(table: Table, start: nat, pages: nat, owner: FrameOwner)
    requires TableOk(table) && 0 < pages && owner != Nobody
    requires MarkedFree(table, start, pages, owner).Some?
    ensures AllTagged(table, start, pages, Info(Used, owner))
    ensures TableOk(MarkedFree(table, start, pages, owner).value)
    ensures Repainted(table, MarkedFree(table, start, pages, owner).value, start, pages, FREE)
  {
    var index := FirstIndex(table, UsedHolding(start, pages, owner), 0);
    HeldTagged(table, index, start, pages);
    RetaggedMeaning(table, index, start, pages, FREE, Info(Used, owner));
  }

  // ---------------------------------------------------------------- adding and reserving

  lemma InsertedMeaning(table: Table, entry: Tracked)
    requires AllValid(table) && EntriesOk(table)
    requires 0 < entry.pages ==> entry.Valid() && EntryOk(entry.start, entry.tag)
    ensures AllValid(Inserted(table, entry)) && EntriesOk(Inserted(table, entry))
    ensures forall frame :: At(Inserted(table, entry), frame) == At(table, frame) + At([entry], frame)
  {
    if entry.pages == 0 {
      forall frame: nat ensures At([entry], frame) == multiset{} {
        AtSingle(entry, frame);
      }
    } else {
      var index := FirstIndex(table, FirstAtOrAfter(entry.start), 0);
      var grown := InsertedAt(table, index, entry);
      CoalesceMeaning(grown);
      CoalesceEntriesOk(grown);
      forall frame: nat ensures At(Coalesce(grown), frame) == At(table, frame) + At([entry], frame) {
        AtInserted(table, index, entry, frame);
      }
    }
  }

  /** Registering untracked frames makes exactly them free. */
  lemma AddedMeaning(table: Table, start: nat, pages: nat)
    requires TableOk(table) && Untracked(table, start, pages)
    requires 1 <= start && start + pages < PAGE_NUMBER_LIMIT
    ensures TableOk(Inserted(table, Range(start, pages, FREE)))
    ensures Repainted(table, Inserted(table, Range(start, pages, FREE)), start, pages, FREE)
  {
    var entry := Range(start, pages, FREE);
    InsertedMeaning(table, entry);
    forall frame
      ensures At(Inserted(table, entry), frame) == if InRange(frame, start, pages) then multiset{FREE} else At(table, frame)
    {
      AtSingle(entry, frame);
    }
    RepaintedExclusive(table, Inserted(table, entry), start, pages, FREE);
  }

  lemma CarvedEntryAt(entry: Tracked, start: nat, pages: nat, frame: nat)
    requires EntryOk(entry.start, entry.tag)
    ensures At(CarvedEntry(entry, start, pages), frame)
         == if InRange(frame, start, pages) then At([entry], frame)[FREE := 0] else At([entry], frame)
  {
    var from, to := Max(entry.start, start), Min(entry.End(), start + pages);
    AtSingle(entry, frame);
    FreeGone(entry.tag);
    if entry.tag.state != Free || from >= to {
      assert CarvedEntry(entry, start, pages) == [entry];
    } else {
      hide Piece;
      LeftoverAt(entry, from, to, frame);
    }
  }

  lemma FreeGone(tag: Info)
    ensures multiset{tag}[FREE := 0] == if tag == FREE then multiset{} else multiset{tag}
  {
  }

  /** What is left of a free entry on both sides of [from, to). */
  lemma LeftoverAt(entry: Tracked, from: nat, to: nat, frame: nat)
    requires entry.tag == FREE && entry.start <= from < to <= entry.End()
    ensures At(Piece(entry.start, from - entry.start, FREE) + Piece(to, entry.End() - to, FREE), frame)
         == if entry.Covers(frame) && !(from <= frame < to) then multiset{FREE} else multiset{}
  {
    hide Piece;
    AtConcat(Piece(entry.start, from - entry.start, FREE), Piece(to, entry.End() - to, FREE), frame);
    PieceAt(entry.start, from - entry.start, FREE, frame);
    PieceAt(to, entry.End() - to, FREE, frame);
  }

  lemma {:induction false} CarvedAt(table: Table, start: nat, pages: nat, frame: nat)
    requires EntriesOk(table)
    ensures At(Carved(table, start, pages), frame)
         == if InRange(frame, start, pages) then At(table, frame)[FREE := 0] else At(table, frame)
  {
    if table != [] {
      var head, rest := CarvedEntry(table[0], start, pages), Carved(table[1..], start, pages);
      AtConcat(head, rest, frame);
      CarvedEntryAt(table[0], start, pages, frame);
      CarvedAt(table[1..], start, pages, frame);
      AtSingle(table[0], frame);
      assert At(table, frame) == At([table[0]], frame) + At(table[1..], frame);
    }
  }

  lemma {:induction false} CarvedOk(table: Table, start: nat, pages: nat)
    requires AllValid(table) && EntriesOk(table)
    ensures AllValid(Carved(table, start, pages)) && EntriesOk(Carved(table, start, pages))
  {
    if table != [] {
      CarvedOk(table[1..], start, pages);
      CarvedEntryOk(table[0], start, pages);
    }
  }

  lemma CarvedEntryOk(entry: Tracked, start: nat, pages: nat)
    requires entry.Valid() && EntryOk(entry.start, entry.tag)
    ensures AllValid(CarvedEntry(entry, start, pages)) && EntriesOk(CarvedEntry(entry, start, pages))
  {
  }

  /** Nothing but free frames in [start, start + pages). */
  ghost predicate OnlyFree(table: Table, start: nat, pages: nat) {
    forall frame :: InRange(frame, start, pages) ==> At(table, frame) <= multiset{FREE}
  }

  /** What a reservation records, whatever it meets: the frames lose what was free about them and
      become reserved on top of anything else. */
  lemma ReservedRecords(table: Table, start: nat, pages: nat, owner: FrameOwner)
    requires AllValid(table) && EntriesOk(table) && start + pages < PAGE_NUMBER_LIMIT
    ensures var after := ReservedTable(table, start, pages, owner);
            && AllValid(after) && EntriesOk(after)
            && forall frame :: At(after, frame) == ReservedAt(At(table, frame), InRange(frame, start, pages), owner)
  {
    var entry := Range(start, pages, Info(Reserved, owner));
    var grown := Inserted(table, entry);
    InsertedMeaning(table, entry);
    CarvedOk(grown, start, pages);
    CoalesceMeaning(Carved(grown, start, pages));
    CoalesceEntriesOk(Carved(grown, start, pages));
    forall frame
      ensures At(ReservedTable(table, start, pages, owner), frame)
           == ReservedAt(At(table, frame), InRange(frame, start, pages), owner)
    {
      CarvedAt(grown, start, pages, frame);
      AtSingle(entry, frame);
    }
  }

  function ReservedAt(tags: multiset<Info>, inside: bool, owner: FrameOwner): multiset<Info> {
    if inside then tags[FREE := 0] + multiset{Info(Reserved, owner)} else tags
  }

  /** Reserving free or untracked frames makes exactly them reserved. */
  lemma ReservedMeaning(table: Table, start: nat, pages: nat, owner: FrameOwner)
    requires TableOk(table) && OnlyFree(table, start, pages) && start + pages < PAGE_NUMBER_LIMIT
    ensures TableOk(ReservedTable(table, start, pages, owner))
    ensures Repainted(table, ReservedTable(table, start, pages, owner), start, pages, Info(Reserved, owner))
  {
    var after, tag := ReservedTable(table, start, pages, owner), Info(Reserved, owner);
    ReservedRecords(table, start, pages, owner);
    forall frame ensures At(after, frame) == if InRange(frame, start, pages) then multiset{tag} else At(table, frame) {
      if InRange(frame, start, pages) {
        OnlyFreeGone(At(table, frame));
      }
    }
    RepaintedExclusive(table, after, start, pages, tag);
  }

  lemma OnlyFreeGone(tags: multiset<Info>)
    ensures tags <= multiset{FREE} ==> tags[FREE := 0] == multiset{}
    ensures !(tags <= multiset{FREE}) && |tags| <= 1 ==> tags[FREE := 0] == tags && |tags| == 1
  {
    if !(tags <= multiset{FREE}) && |tags| <= 1 {
      var tag :| tag in tags && (tag != FREE || tags[tag] > 1);
      assert tags == multiset{tag} + (tags - multiset{tag});
    }
  }

  /** Adding frames keeps every frame recorded once exactly when none of them was recorded. */
  lemma AddedExact(table: Table, start: nat, pages: nat)
    requires TableOk(table) && 1 <= start && start + pages < PAGE_NUMBER_LIMIT
    ensures TableOk(Inserted(table, Range(start, pages, FREE))) <==> Untracked(table, start, pages)
  {
    var entry := Range(start, pages, FREE);
    InsertedMeaning(table, entry);
    if Untracked(table, start, pages) {
      AddedMeaning(table, start, pages);
    } else {
      var frame :| InRange(frame, start, pages) && At(table, frame) != multiset{};
      AtSingle(entry, frame);
      assert |At(Inserted(table, entry), frame)| == |At(table, frame)| + 1;
    }
  }

  /** Reserving keeps every frame recorded once exactly when it meets free or untracked frames only. */
  lemma ReservedExact(table: Table, start: nat, pages: nat, owner: FrameOwner)
    requires TableOk(table) && start + pages < PAGE_NUMBER_LIMIT
    ensures TableOk(ReservedTable(table, start, pages, owner)) <==> OnlyFree(table, start, pages)
  {
    if OnlyFree(table, start, pages) {
      ReservedMeaning(table, start, pages, owner);
    } else {
      ReservedRecords(table, start, pages, owner);
      var frame :| InRange(frame, start, pages) && !(At(table, frame) <= multiset{FREE});
      assert |At(table, frame)| <= 1;
      OnlyFreeGone(At(table, frame));
      assert |At(ReservedTable(table, start, pages, owner), frame)| == 2;
    }
  }
}
