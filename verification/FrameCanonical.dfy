/** When the frame table is the unique sorted, merged encoding of the frame map, and what
    the allocator then guarantees: exact failure conditions and undoable allocation. */
module FrameCanonical {
  import opened Machine
  import opened RangeMaps
  import opened Ranges
  import opened CanonicalRanges
  import opened FrameTable
  import opened FrameMap

  // ---------------------------------------------------------------- splitting keeps order

  ghost predicate Within(pieces: Table, entry: Tracked) {
    forall i :: 0 <= i < |pieces| ==> entry.start <= pieces[i].start && pieces[i].End() <= entry.End()
  }

  lemma SplicedOrdered(table: Table, index: nat, pieces: Table)
    requires Ordered(table) && index < |table| && Ordered(pieces) && Within(pieces, table[index])
    requires AllValid(table)
    ensures Ordered(Spliced(table, index, pieces))
  {
    var after := Spliced(table, index, pieces);
    forall i, j | 0 <= i < j < |after| ensures after[i].End() <= after[j].start {
      SplicedEntry(table, index, pieces, i);
      SplicedEntry(table, index, pieces, j);
    }
  }

  /** Where each entry of a spliced table comes from. */
  lemma SplicedEntry(table: Table, index: nat, pieces: Table, i: nat)
    requires index < |table| && i < |Spliced(table, index, pieces)|
    ensures Spliced(table, index, pieces)[i] ==
            if i < index then table[i]
            else if i < index + |pieces| then pieces[i - index]
            else table[i - |pieces| + 1]
  {
  }

  lemma SplitEntryOrdered(entry: Tracked, start: nat, pages: nat, tag: Info, rest: Info)
    requires Holds(entry, start, pages)
    ensures Ordered(SplitEntry(entry, start, pages, tag, rest))
    ensures Within(SplitEntry(entry, start, pages, tag, rest), entry)
  {
  }

  lemma RetaggedCanonical(table: Table, index: nat, start: nat, pages: nat, tag: Info, rest: Info)
    requires Canonical(table) && 0 < pages
    requires index < |table| && Holds(table[index], start, pages)
    ensures Canonical(Retagged(table, index, start, pages, tag, rest))
  {
    var pieces := SplitEntry(table[index], start, pages, tag, rest);
    SplitEntryOrdered(table[index], start, pages, tag, rest);
    SplicedOrdered(table, index, pieces);
    assert AllValid(pieces);
    CoalesceCanonical(Spliced(table, index, pieces));
  }

  lemma AllocationCanonical(table: Table, pages: nat, owner: FrameOwner)
    requires Canonical(table) && 0 < pages
    ensures Canonical(AllocatedTable(table, pages, owner))
  {
    match AllocatedStart(table, pages)
    case None =>
    case Some(start) =>
      var index := FirstIndex(table, FreeHolding(start, pages), 0);
      if index < |table| && CheckedEnd(start, pages).Some? {
        RetaggedCanonical(table, index, start, pages, Info(Used, owner), FREE);
      }
  }

  lemma ReleaseCanonical(table: Table, start: nat, pages: nat, owner: FrameOwner)
    requires Canonical(table) && 0 < pages
    ensures Canonical(FreedTable(table, start, pages, owner))
  {
    var index := FirstIndex(table, UsedHolding(start, pages, owner), 0);
    if index < |table| && CheckedEnd(start, pages).Some? {
      RetaggedCanonical(table, index, start, pages, FREE, Info(Used, owner));
    }
  }

  // ---------------------------------------------------------------- adding keeps order

  lemma InsertedEntry(table: Table, index: nat, entry: Tracked, i: nat)
    requires index <= |table| && i <= |table|
    ensures InsertedAt(table, index, entry)[i] ==
            if i < index then table[i] else if i == index then entry else table[i - 1]
  {
  }

  lemma UntrackedApart(table: Table, index: nat, start: nat, pages: nat)
    requires Untracked(table, start, pages) && index < |table| && table[index].Valid() && 0 < pages
    ensures table[index].End() <= start || start + pages <= table[index].start
  {
    var meet := Max(table[index].start, start);
    if table[index].Covers(meet) && InRange(meet, start, pages) {
      AtCovered(table, index, meet);
      assert false;
    }
  }

  lemma InsertedOrdered(table: Table, index: nat, entry: Tracked)
    requires Ordered(table) && index <= |table|
    requires forall i :: 0 <= i < index ==> table[i].End() <= entry.start
    requires forall i :: index <= i < |table| ==> entry.End() <= table[i].start
    ensures Ordered(InsertedAt(table, index, entry))
  {
    var grown := InsertedAt(table, index, entry);
    forall i, j | 0 <= i < j < |grown| ensures grown[i].End() <= grown[j].start {
      InsertedEntry(table, index, entry, i);
      InsertedEntry(table, index, entry, j);
    }
  }

  lemma AddCanonical(table: Table, start: nat, pages: nat, tag: Info)
    requires Canonical(table) && Untracked(table, start, pages) && start + pages < PAGE_NUMBER_LIMIT
    ensures Canonical(Inserted(table, Range(start, pages, tag)))
  {
    if 0 < pages {
      var entry := Range(start, pages, tag);
      var index := FirstIndex(table, FirstAtOrAfter(start), 0);
      forall i | 0 <= i < index ensures table[i].End() <= start {
        assert !FirstAtOrAfter(start)(table[i]);
        UntrackedApart(table, i, start, pages);
      }
      forall i | index <= i < |table| ensures start + pages <= table[i].start {
        assert FirstAtOrAfter(start)(table[index]);
        UntrackedApart(table, i, start, pages);
      }
      InsertedOrdered(table, index, entry);
      CoalesceCanonical(InsertedAt(table, index, entry));
    }
  }

  // ---------------------------------------------------------------- reserving

  /** The reservation lies strictly inside one free entry. */
  ghost predicate PunchesHole(table: Table, start: nat, pages: nat) {
    exists i :: 0 <= i < |table| && HoleIn(table[i], start, pages)
  }

  predicate HoleIn(entry: Tracked, start: nat, pages: nat) {
    0 < pages && entry.tag.state == Free && entry.start < start && start + pages < entry.End()
  }

  /** Entries in table order around a reservation that is not carved out yet: apart, or a free
      entry running into the reservation from below, or one starting inside it. */
  predicate Straddles(a: Tracked, b: Tracked, start: nat, pages: nat) {
    || a.End() <= b.start
    || (a.tag.state == Free && b.tag.state != Free && a.start < start == b.start && a.End() <= start + pages)
    || (a.tag.state != Free && b.tag.state == Free && a.End() == start + pages && start <= b.start)
  }

  function Straddling(start: nat, pages: nat): (Tracked, Tracked) -> bool {
    (a: Tracked, b: Tracked) => Straddles(a, b, start, pages)
  }

  lemma StraddlingJoins(start: nat, pages: nat)
    ensures JoinClosed(Straddling(start, pages))
  {
  }

  lemma OrderedStraddles(table: Table, i: nat, j: nat, start: nat, pages: nat)
    requires Canonical(table) && i < j < |table|
    ensures Straddles(table[i], table[j], start, pages)
  {
  }

  lemma BelowStraddles(table: Table, i: nat, start: nat, pages: nat, entry: Tracked)
    requires Canonical(table) && OnlyFree(table, start, pages) && 0 < pages && !PunchesHole(table, start, pages)
    requires entry.start == start && entry.pages == pages && entry.tag.state == Reserved
    requires i < FirstIndex(table, FirstAtOrAfter(start), 0)
    ensures Straddles(table[i], entry, start, pages)
  {
    assert !FirstAtOrAfter(start)(table[i]);
    assert !HoleIn(table[i], start, pages);
    OnlyFreeMeets(table, i, start, pages);
  }

  lemma AboveStraddles(table: Table, j: nat, start: nat, pages: nat, entry: Tracked)
    requires Canonical(table) && OnlyFree(table, start, pages) && 0 < pages
    requires entry.start == start && entry.pages == pages && entry.tag.state == Reserved
    requires FirstIndex(table, FirstAtOrAfter(start), 0) <= j < |table|
    ensures Straddles(entry, table[j], start, pages)
  {
    assert FirstAtOrAfter(start)(table[FirstIndex(table, FirstAtOrAfter(start), 0)]);
    OnlyFreeMeets(table, j, start, pages);
  }

  lemma GrownStraddles(table: Table, start: nat, pages: nat, entry: Tracked, i: nat, j: nat)
    requires Canonical(table) && OnlyFree(table, start, pages) && 0 < pages && !PunchesHole(table, start, pages)
    requires entry.start == start && entry.pages == pages && entry.tag.state == Reserved && i < j <= |table|
    ensures var grown := InsertedAt(table, FirstIndex(table, FirstAtOrAfter(start), 0), entry);
            Straddles(grown[i], grown[j], start, pages)
  {
    hide Straddles, OnlyFree, PunchesHole, Canonical, FirstAtOrAfter;
    var index := FirstIndex(table, FirstAtOrAfter(start), 0);
    InsertedEntry(table, index, entry, i);
    InsertedEntry(table, index, entry, j);
    if i < index == j {
      BelowStraddles(table, i, start, pages, entry);
    } else if i == index {
      AboveStraddles(table, j - 1, start, pages, entry);
    } else {
      OrderedStraddles(table, if i < index then i else i - 1, if j < index then j else j - 1, start, pages);
    }
  }

  lemma InsertedStraddles(table: Table, start: nat, pages: nat, owner: FrameOwner)
    requires Canonical(table) && EntriesOk(table) && OnlyFree(table, start, pages)
    requires 0 < pages && start + pages < PAGE_NUMBER_LIMIT && !PunchesHole(table, start, pages)
    ensures Pairwise(Straddling(start, pages), Inserted(table, Range(start, pages, Info(Reserved, owner))))
  {
    hide Straddles, OnlyFree, PunchesHole, FirstIndex;
    var entry := Range(start, pages, Info(Reserved, owner));
    var grown := InsertedAt(table, FirstIndex(table, FirstAtOrAfter(start), 0), entry);
    forall i: nat, j: nat | i < j < |grown| ensures Straddles(grown[i], grown[j], start, pages) {
      GrownStraddles(table, start, pages, entry, i, j);
    }
    StraddlingJoins(start, pages);
    CoalescePairwise(Straddling(start, pages), grown);
  }

  lemma OnlyFreeMeets(table: Table, index: nat, start: nat, pages: nat)
    requires OnlyFree(table, start, pages) && index < |table| && table[index].Valid() && 0 < pages
    ensures table[index].tag == FREE || table[index].End() <= start || start + pages <= table[index].start
  {
    var meet := Max(table[index].start, start);
    if table[index].Covers(meet) && InRange(meet, start, pages) {
      AtCovered(table, index, meet);
      assert At(table, meet) <= multiset{FREE};
    }
  }

  /** Carving turns straddling entries into ordered pieces. */
  lemma CarvedPair(a: Tracked, b: Tracked, start: nat, pages: nat, p: Tracked, q: Tracked)
    requires a.Valid() && b.Valid() && Straddles(a, b, start, pages)
    requires p in CarvedEntry(a, start, pages) && q in CarvedEntry(b, start, pages)
    ensures p.End() <= q.start
  {
  }

  lemma {:induction false} CarvedAfter(a: Tracked, rest: Table, start: nat, pages: nat, p: Tracked, q: Tracked)
    requires a.Valid() && AllValid(rest) && Precedes(Straddling(start, pages), a, rest)
    requires p in CarvedEntry(a, start, pages) && q in Carved(rest, start, pages)
    ensures p.End() <= q.start
  {
    if q in CarvedEntry(rest[0], start, pages) {
      assert Straddling(start, pages)(a, rest[0]);
      CarvedPair(a, rest[0], start, pages, p, q);
    } else {
      assert Precedes(Straddling(start, pages), a, rest[1..]);
      CarvedAfter(a, rest[1..], start, pages, p, q);
    }
  }

  lemma CarvedEntryOrdered(entry: Tracked, start: nat, pages: nat)
    ensures Ordered(CarvedEntry(entry, start, pages))
  {
  }

  lemma {:induction false} CarvedOrdered(table: Table, start: nat, pages: nat)
    requires AllValid(table) && Pairwise(Straddling(start, pages), table)
    ensures Ordered(Carved(table, start, pages))
  {
    if table != [] {
      var head, rest := CarvedEntry(table[0], start, pages), Carved(table[1..], start, pages);
      CarvedOrdered(table[1..], start, pages);
      CarvedEntryOrdered(table[0], start, pages);
      assert Precedes(Straddling(start, pages), table[0], table[1..]);
      forall p, q | p in head && q in rest ensures p.End() <= q.start {
        CarvedAfter(table[0], table[1..], start, pages, p, q);
      }
      OrderedConcat(head, rest);
    }
  }

  lemma OrderedConcat(a: Table, b: Table)
    requires Ordered(a) && Ordered(b)
    requires forall p, q :: p in a && q in b ==> p.End() <= q.start
    ensures Ordered(a + b)
  {
  }

  lemma ReserveCanonical(table: Table, start: nat, pages: nat, owner: FrameOwner)
    requires Canonical(table) && TableOk(table) && OnlyFree(table, start, pages)
    requires 0 < pages && start + pages < PAGE_NUMBER_LIMIT && !PunchesHole(table, start, pages)
    ensures Canonical(ReservedTable(table, start, pages, owner))
  {
    var entry := Range(start, pages, Info(Reserved, owner));
    InsertedMeaning(table, entry);
    InsertedStraddles(table, start, pages, owner);
    CarvedOrdered(Inserted(table, entry), start, pages);
    CarvedOk(Inserted(table, entry), start, pages);
    CoalesceCanonical(Carved(Inserted(table, entry), start, pages));
  }

  lemma HoleInsertion(table: Table, index: nat, start: nat, pages: nat, owner: FrameOwner)
    requires Canonical(table) && index < |table| && HoleIn(table[index], start, pages)
    ensures Inserted(table, Range(start, pages, Info(Reserved, owner)))
         == InsertedAt(table, index + 1, Range(start, pages, Info(Reserved, owner)))
  {
    var entry := Range(start, pages, Info(Reserved, owner));
    var first := FirstIndex(table, FirstAtOrAfter(start), 0);
    assert !FirstAtOrAfter(start)(table[index]);
    if index + 1 < |table| {
      assert FirstAtOrAfter(start)(table[index + 1]);
    }
    forall i | 0 <= i < index ensures !FirstAtOrAfter(start)(table[i]) {
      assert table[i].End() <= table[index].start;
    }
    assert first == index + 1;
    var grown := InsertedAt(table, first, entry);
    forall i | 0 <= i < |grown| - 1 ensures !Joins(grown[i], grown[i + 1]) {
      InsertedEntry(table, first, entry, i);
      InsertedEntry(table, first, entry, i + 1);
    }
    CoalesceFixed(grown);
  }

  lemma {:induction false} CarvedUntouched(table: Table, start: nat, pages: nat)
    requires forall i :: 0 <= i < |table| ==> CarvedEntry(table[i], start, pages) == [table[i]]
    ensures Carved(table, start, pages) == table
  {
    if table != [] {
      CarvedUntouched(table[1..], start, pages);
      assert table == [table[0]] + table[1..];
    }
  }

  lemma {:induction false} CarvedConcat(a: Table, b: Table, start: nat, pages: nat)
    ensures Carved(a + b, start, pages) == Carved(a, start, pages) + Carved(b, start, pages)
  {
    if a == [] {
      assert a + b == b;
    } else {
      var head := CarvedEntry(a[0], start, pages);
      calc {
        Carved(a + b, start, pages);
        { assert (a + b)[1..] == a[1..] + b; }
        head + Carved(a[1..] + b, start, pages);
        { CarvedConcat(a[1..], b, start, pages); }
        head + (Carved(a[1..], start, pages) + Carved(b, start, pages));
        { AppendAssociates(head, Carved(a[1..], start, pages), Carved(b, start, pages)); }
        head + Carved(a[1..], start, pages) + Carved(b, start, pages);
      }
    }
  }

  /** A hole leaves the upper free piece before the reservation that lies below it. */
  lemma HoleResult(table: Table, index: nat, start: nat, pages: nat, owner: FrameOwner)
    requires Canonical(table) && index < |table| && HoleIn(table[index], start, pages)
    ensures Carved(Inserted(table, Range(start, pages, Info(Reserved, owner))), start, pages)
         == table[..index] + HolePieces(table[index], start, pages, owner) + table[index + 1..]
  {
    var entry := Range(start, pages, Info(Reserved, owner));
    var below, above := table[..index], table[index + 1..];
    HoleInsertion(table, index, start, pages, owner);
    InsertedNextTo(table, index, entry);
    CarvedUntouched(below, start, pages);
    CarvedUntouched(above, start, pages);
    calc {
      Carved(below + [table[index], entry] + above, start, pages);
      { CarvedConcat(below + [table[index], entry], above, start, pages); }
      Carved(below + [table[index], entry], start, pages) + above;
      { CarvedConcat(below, [table[index], entry], start, pages); }
      below + Carved([table[index], entry], start, pages) + above;
      { CarvedHole(table[index], start, pages, owner); }
      below + HolePieces(table[index], start, pages, owner) + above;
    }
  }

  lemma InsertedNextTo(table: Table, index: nat, entry: Tracked)
    requires index < |table|
    ensures InsertedAt(table, index + 1, entry) == table[..index] + [table[index], entry] + table[index + 1..]
  {
  }

  lemma CarvedHole(hole: Tracked, start: nat, pages: nat, owner: FrameOwner)
    requires HoleIn(hole, start, pages)
    ensures Carved([hole, Range(start, pages, Info(Reserved, owner))], start, pages)
         == HolePieces(hole, start, pages, owner)
  {
    var entry := Range(start, pages, Info(Reserved, owner));
    assert [hole, entry] == [hole] + [entry];
    CarvedConcat([hole], [entry], start, pages);
    CarvedSingle(hole, start, pages);
    CarvedSingle(entry, start, pages);
  }

  function HolePieces(entry: Tracked, start: nat, pages: nat, owner: FrameOwner): Table
    requires HoleIn(entry, start, pages)
  {
    [Range(entry.start, start - entry.start, entry.tag),
     Range(start + pages, entry.End() - (start + pages), FREE),
     Range(start, pages, Info(Reserved, owner))]
  }

  lemma CarvedSingle(entry: Tracked, start: nat, pages: nat)
    ensures Carved([entry], start, pages) == CarvedEntry(entry, start, pages)
  {
    assert [entry][1..] == [];
  }

  /** Nothing merges around the hole, so the reservation stays behind the piece above it. */
  lemma HoleLeaves(table: Table, index: nat, start: nat, pages: nat, owner: FrameOwner)
    requires Canonical(table) && index < |table| && HoleIn(table[index], start, pages)
    ensures var after := ReservedTable(table, start, pages, owner);
            && index + 2 < |after| && after[index + 1].start == start + pages < after[index + 1].End()
            && after[index + 2] == Range(start, pages, Info(Reserved, owner))
  {
    var pieces := HolePieces(table[index], start, pages, owner);
    var after := Spliced(table, index, pieces);
    HoleResult(table, index, start, pages, owner);
    forall i | 0 <= i < |after| - 1 ensures !Joins(after[i], after[i + 1]) {
      SplicedEntry(table, index, pieces, i);
      SplicedEntry(table, index, pieces, i + 1);
    }
    CoalesceFixed(after);
    SplicedEntry(table, index, pieces, index + 1);
    SplicedEntry(table, index, pieces, index + 2);
  }

  /** A reservation of free frames keeps the table sorted and merged exactly when it does not
      punch a hole strictly inside one free entry. */
  lemma ReserveKeepsCanonical(table: Table, start: nat, pages: nat, owner: FrameOwner)
    requires Canonical(table) && TableOk(table) && OnlyFree(table, start, pages)
    requires 0 < pages && start + pages < PAGE_NUMBER_LIMIT
    ensures Canonical(ReservedTable(table, start, pages, owner)) <==> !PunchesHole(table, start, pages)
  {
    if PunchesHole(table, start, pages) {
      var index :| 0 <= index < |table| && HoleIn(table[index], start, pages);
      HoleLeaves(table, index, start, pages, owner);
    } else {
      ReserveCanonical(table, start, pages, owner);
    }
  }

  // ---------------------------------------------------------------- what canonical tables guarantee

  predicate Touch(a: Tracked, b: Tracked) {
    a.tag.state == Free && b.tag.state == Free && a.End() == b.start
  }

  /** Two free entries meet end to start, wherever they stand in the table. */
  ghost predicate FreeEntriesTouch(table: Table) {
    exists i, j :: 0 <= i < |table| && 0 <= j < |table| && Touch(table[i], table[j])
  }

  ghost predicate InOneEntry(table: Table, start: nat, pages: nat) {
    exists i :: 0 <= i < |table| && FreeHolding(start, pages)(table[i])
  }

  lemma FreeFrameCovered(table: Table, frame: nat) returns (index: nat)
    requires TableOk(table) && frame in Meaning(table) && Meaning(table)[frame] == FREE
    ensures index < |table| && table[index].tag.state == Free && table[index].Covers(frame)
  {
    MeaningSound(table, frame);
    index := AtWitness(table, frame, FREE);
  }

  /** Without touching entries a run of free frames lies in one entry. */
  lemma {:induction false} FreeRunInside(table: Table, start: nat, pages: nat) returns (index: nat)
    requires TableOk(table) && !FreeEntriesTouch(table) && 0 < pages && AllHave(Meaning(table), start, pages, FREE)
    ensures index < |table| && FreeHolding(start, pages)(table[index])
    decreases pages
  {
    var last := start + pages - 1;
    assert InRange(last, start, pages);
    if pages == 1 {
      index := FreeFrameCovered(table, last);
    } else {
      assert forall frame :: InRange(frame, start, pages - 1) ==> InRange(frame, start, pages);
      index := FreeRunInside(table, start, pages - 1);
      if last == table[index].End() {
        var next := FreeFrameCovered(table, last);
        assert !Touch(table[index], table[next]);
        OneCovers(table, index, next, last - 1);
      }
    }
  }

  lemma CoveredIsFree(table: Table, index: nat, frame: nat)
    requires TableOk(table) && index < |table| && table[index].tag.state == Free && table[index].Covers(frame)
    ensures frame in Meaning(table) && Meaning(table)[frame] == FREE
  {
    FreeEntryTag(table, index);
    AtExclusive(table, index, frame);
    MeaningExact(table, frame);
  }

  /** The frames on both sides of a touch are a free run in no single entry. */
  lemma TouchSplitsRun(table: Table, i: nat, j: nat)
    requires TableOk(table) && i < |table| && j < |table| && Touch(table[i], table[j]) && 0 < table[j].start
    ensures AllHave(Meaning(table), table[j].start - 1, 2, FREE) && !InOneEntry(table, table[j].start - 1, 2)
  {
    hide EntriesOk, Exclusive;
    var border := table[j].start;
    assert table[i].Covers(border - 1) && table[j].Covers(border);
    CoveredIsFree(table, i, border - 1);
    CoveredIsFree(table, j, border);
    if InOneEntry(table, border - 1, 2) {
      var k: nat :| k < |table| && FreeHolding(border - 1, 2)(table[k]);
      OneCovers(table, i, k, border - 1);
    }
  }

  /** Every run of free frames lies in a single free entry if and only if no two of them touch. */
  lemma RunsInOneEntry(table: Table)
    requires TableOk(table)
    ensures !FreeEntriesTouch(table) <==>
            forall start: nat, pages: nat :: 0 < pages && AllHave(Meaning(table), start, pages, FREE) ==>
              InOneEntry(table, start, pages)
  {
    if FreeEntriesTouch(table) {
      var i: nat, j: nat :| i < |table| && j < |table| && Touch(table[i], table[j]);
      FreeEntryTag(table, j);
      TouchSplitsRun(table, i, j);
    } else {
      forall start: nat, pages: nat | 0 < pages && AllHave(Meaning(table), start, pages, FREE)
        ensures InOneEntry(table, start, pages)
      {
        var index := FreeRunInside(table, start, pages);
      }
    }
  }

  lemma CanonicalApart(table: Table)
    requires Canonical(table) && EntriesOk(table)
    ensures !FreeEntriesTouch(table)
  {
    if FreeEntriesTouch(table) {
      var i: nat, j: nat :| i < |table| && j < |table| && Touch(table[i], table[j]);
      FreeEntryTag(table, i);
      FreeEntryTag(table, j);
      NextEntry(table, i, j);
    }
  }

  /** While no two free entries touch, in a canonical table above all, an allocation fails exactly
      when no run of `pages` free frames exists. */
  lemma AllocationComplete(table: Table, pages: nat)
    requires TableOk(table) && !FreeEntriesTouch(table) && 0 < pages
    ensures AllocatedStart(table, pages).None? <==> !SomeRunFree(Meaning(table), pages)
  {
    if AllocatedStart(table, pages).Some? {
      AllocationRefines(table, pages, UnknownUsed);
    }
    if exists start: nat :: AllHave(Meaning(table), start, pages, FREE) {
      var start: nat :| AllHave(Meaning(table), start, pages, FREE);
      var index := FreeRunInside(table, start, pages);
      assert FreeWithPages(pages)(table[index]);
    }
  }

  /** No run of `pages` free frames starts below `start`. */
  ghost predicate LowestRun(view: Frames, start: nat, pages: nat) {
    forall other: nat :: AllHave(view, other, pages, FREE) ==> start <= other
  }

  /** In a canonical table an allocation takes the lowest run that is long enough. */
  lemma AllocationLowest(table: Table, pages: nat)
    requires Canonical(table) && TableOk(table) && 0 < pages && AllocatedStart(table, pages).Some?
    ensures LowestRun(Meaning(table), AllocatedStart(table, pages).value, pages)
  {
    var first := FirstIndex(table, FreeWithPages(pages), 0);
    forall other: nat | AllHave(Meaning(table), other, pages, FREE) ensures table[first].start <= other {
      TaggedMeaning(table, other, pages, FREE);
      var index := RunInsideEntry(table, other, pages, FREE);
      assert FreeWithPages(pages)(table[index]);
      if first < index {
        OrderedAt(table, first, index);
      }
    }
  }

  /** In a canonical table a release is accepted exactly when every frame is used by `owner`. */
  lemma ReleaseComplete(table: Table, start: nat, pages: nat, owner: FrameOwner)
    requires Canonical(table) && TableOk(table) && 0 < pages && owner != Nobody
    ensures FreeAccepted(table, start, pages, owner) <==> AllHave(Meaning(table), start, pages, Info(Used, owner))
  {
    if FreeAccepted(table, start, pages, owner) {
      ReleaseRefines(table, start, pages, owner);
    }
    if AllHave(Meaning(table), start, pages, Info(Used, owner)) {
      TaggedMeaning(table, start, pages, Info(Used, owner));
      var index := RunInsideEntry(table, start, pages, Info(Used, owner));
      assert UsedHolding(start, pages, owner)(table[index]);
    }
  }

  /** Tables with the same map are the same table once canonical. */
  lemma CanonicalEncoding(s: Table, t: Table)
    requires Canonical(s) && Canonical(t) && Meaning(s) == Meaning(t)
    ensures s == t
  {
    OrderedExclusive(s);
    OrderedExclusive(t);
    forall frame: nat ensures At(s, frame) == At(t, frame) {
      MeaningExact(s, frame);
      MeaningExact(t, frame);
    }
    CanonicalUnique(s, t);
  }

  lemma PaintBack(frames: Frames, start: nat, pages: nat, tag: Info, owner: FrameOwner)
    requires AllHave(frames, start, pages, tag)
    ensures Painted(Painted(frames, start, pages, Info(Used, owner)), start, pages, tag) == frames
  {
    var there := Painted(frames, start, pages, Info(Used, owner));
    var back := Painted(there, start, pages, tag);
    forall frame: nat
      ensures frame in back <==> frame in frames
      ensures frame in back ==> back[frame] == frames[frame]
    {
      PaintedAt(frames, start, pages, Info(Used, owner), frame);
      PaintedAt(there, start, pages, tag, frame);
    }
    SameMap(back, frames);
  }

  /** Releasing what was just allocated is accepted and restores the table entry for entry. */
  lemma AllocateThenRelease(table: Table, pages: nat, owner: FrameOwner)
    requires Canonical(table) && TableOk(table) && 0 < pages && owner != Nobody
    requires AllocatedStart(table, pages).Some?
    ensures FreeAccepted(AllocatedTable(table, pages, owner), AllocatedStart(table, pages).value, pages, owner)
    ensures FreedTable(AllocatedTable(table, pages, owner), AllocatedStart(table, pages).value, pages, owner) == table
  {
    var start := AllocatedStart(table, pages).value;
    var taken := AllocatedTable(table, pages, owner);
    AllocationRefines(table, pages, owner);
    AllocationCanonical(table, pages, owner);
    forall frame | InRange(frame, start, pages)
      ensures frame in Meaning(taken) && Meaning(taken)[frame] == Info(Used, owner)
    {
      PaintedAt(Meaning(table), start, pages, Info(Used, owner), frame);
    }
    ReleaseComplete(taken, start, pages, owner);
    ReleaseRefines(taken, start, pages, owner);
    ReleaseCanonical(taken, start, pages, owner);
    PaintBack(Meaning(table), start, pages, FREE, owner);
    CanonicalEncoding(FreedTable(taken, start, pages, owner), table);
  }

  // ---------------------------------------------------------------- runs

  ghost predicate Punches(table: Table, request: Request) {
    request.Reserve? && PunchesHole(table, request.start, request.pages)
  }

  lemma ReserveNothing(table: Table, start: nat, owner: FrameOwner)
    requires Canonical(table)
    ensures ReservedTable(table, start, 0, owner) == table
  {
    CarvedUntouched(table, start, 0);
    CoalesceFixed(table);
  }

  /** A permitted request keeps the table canonical exactly when it punches no hole. */
  lemma StepKeepsCanonical(table: Table, request: Request)
    requires Canonical(table) && TableOk(table) && Permitted(Meaning(table), request)
    ensures Canonical(Step(table, request)) <==> !Punches(table, request)
  {
    match request
    case Add(start, pages) =>
      UntrackedMeaning(table, start, pages);
      AddCanonical(table, start, pages, FREE);
    case Reserve(start, pages, owner) =>
      OnlyFreeMeaning(table, start, pages);
      if pages == 0 {
        ReserveNothing(table, start, owner);
      } else {
        ReserveKeepsCanonical(table, start, pages, owner);
      }
    case Allocate(pages, owner) =>
      AllocationCanonical(table, pages, owner);
    case Release(start, pages, owner) =>
      ReleaseCanonical(table, start, pages, owner);
  }

  /** Boot order that splits frames 1..9 around frame 5 and then adds frames 10..12. */
  const HOLE_RUN: seq<Request> := [Add(1, 9), Reserve(5, 1, FirmwareReserved), Add(10, 3)]
  const PLAIN_TABLE: Table := [Range(1, 9, FREE)]
  const HOLE_TABLE: Table := [Range(1, 4, FREE), Range(6, 4, FREE), Range(5, 1, Info(Reserved, FirmwareReserved))]
  const GROWN_TABLE: Table := HOLE_TABLE + [Range(10, 3, FREE)]

  lemma HoleAdds()
    ensures Step([], Add(1, 9)) == PLAIN_TABLE
  {
    assert InsertedAt([], 0, Range(1, 9, FREE)) == PLAIN_TABLE;
  }

  lemma HoleReserves()
    ensures Step(PLAIN_TABLE, Reserve(5, 1, FirmwareReserved)) == HOLE_TABLE
  {
    HoleResult(PLAIN_TABLE, 0, 5, 1, FirmwareReserved);
    assert Spliced(PLAIN_TABLE, 0, HolePieces(PLAIN_TABLE[0], 5, 1, FirmwareReserved)) == HOLE_TABLE;
    CoalesceFixed(HOLE_TABLE);
  }

  lemma HoleGrows()
    ensures Step(HOLE_TABLE, Add(10, 3)) == GROWN_TABLE
  {
    assert !FirstAtOrAfter(10)(HOLE_TABLE[0]) && !FirstAtOrAfter(10)(HOLE_TABLE[1]) && !FirstAtOrAfter(10)(HOLE_TABLE[2]);
    assert FirstIndex(HOLE_TABLE, FirstAtOrAfter(10), 0) == 3;
    assert InsertedAt(HOLE_TABLE, 3, Range(10, 3, FREE)) == GROWN_TABLE;
    CoalesceFixed(GROWN_TABLE);
  }

  lemma HolePermitted()
    ensures Permitted(Meaning([]), Add(1, 9))
    ensures Permitted(Meaning(PLAIN_TABLE), Reserve(5, 1, FirmwareReserved))
    ensures Permitted(Meaning(HOLE_TABLE), Add(10, 3))
  {
    assert PLAIN_TABLE[1..] == [];
    forall frame: nat | InRange(frame, 10, 3) ensures frame !in Meaning(HOLE_TABLE) {
      MeaningSound(HOLE_TABLE, frame);
      if frame in Meaning(HOLE_TABLE) {
        var index := AtWitness(HOLE_TABLE, frame, Meaning(HOLE_TABLE)[frame]);
        assert false;
      }
    }
  }

  lemma HoleFrames()
    ensures AllHave(Meaning(GROWN_TABLE), 6, 7, FREE)
  {
    forall frame: nat | InRange(frame, 6, 7)
      ensures frame in Meaning(GROWN_TABLE) && Meaning(GROWN_TABLE)[frame] == FREE
    {
      HoleFrame(frame);
    }
  }

  lemma HoleFrame(frame: nat)
    requires InRange(frame, 6, 7)
    ensures frame in Meaning(GROWN_TABLE) && Meaning(GROWN_TABLE)[frame] == FREE
  {
    AtCovered(GROWN_TABLE, if frame < 10 then 1 else 3, frame);
    MeaningSound(GROWN_TABLE, frame);
    var index := AtWitness(GROWN_TABLE, frame, Meaning(GROWN_TABLE)[frame]);
  }

  /** After a hole an allocation can fail although enough contiguous frames are free: frames
      6..12 are all free, and seven frames are refused. */
  lemma HoleLosesRun()
    ensures RunPermitted([], HOLE_RUN) && PunchesHole(PLAIN_TABLE, 5, 1)
    ensures AllHave(Meaning(Run([], HOLE_RUN)), 6, 7, FREE)
    ensures AllocatedStart(Run([], HOLE_RUN), 7).None?
  {
    HoleAdds();
    HoleReserves();
    HoleGrows();
    HolePermitted();
    HoleFrames();
    assert HoleIn(PLAIN_TABLE[0], 5, 1);
    assert HOLE_RUN[1..] == [Reserve(5, 1, FirmwareReserved), Add(10, 3)];
    assert HOLE_RUN[1..][1..] == [Add(10, 3)];
    assert HOLE_RUN[1..][1..][1..] == [];
    assert Run([], HOLE_RUN) == Run(PLAIN_TABLE, HOLE_RUN[1..]) == Run(HOLE_TABLE, HOLE_RUN[1..][1..]) == GROWN_TABLE;
  }
}
