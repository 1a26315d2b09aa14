/** A reservation that once stood behind a higher frame does so for ever: the allocator never sorts
    its table again, so a run keeps the table canonical exactly when it never punches a hole. */
module FrameInversion {
  import opened Machine
  import opened RangeMaps
  import opened Ranges
  import opened CanonicalRanges
  import opened FrameTable
  import opened FrameMap
  import opened FrameCanonical

  /** An entry with tag `a` at frame `high` stands before one with tag `b` at frame `low`. */
  ghost predicate Before(table: Table, i: nat, j: nat, a: Info, high: nat, b: Info, low: nat) {
    && i < j < |table| && table[i].tag == a && table[i].Covers(high) && table[j].tag == b && table[j].Covers(low)
  }

  ghost predicate Crossed(table: Table, a: Info, high: nat, b: Info, low: nat) {
    exists i: nat, j: nat :: Before(table, i, j, a, high, b, low)
  }

  /** A reserved frame is recorded behind a higher frame. */
  ghost predicate Inverted(table: Table) {
    exists a: Info, high: nat, b: Info, low: nat :: b.state == Reserved && low < high && Crossed(table, a, high, b, low)
  }

  lemma OrderedNotInverted(table: Table)
    requires AllValid(table) && Ordered(table)
    ensures !Inverted(table)
  {
  }

  // ---------------------------------------------------------------- merging

  lemma JoinedCovers(current: Tracked, rest: Table, i: nat, j: nat, a: Info, high: nat, b: Info, low: nat)
    requires current.Valid() && AllValid(rest) && rest != [] && Joins(current, rest[0])
    requires low < high && Before([current] + rest, i, j, a, high, b, low)
    ensures 2 <= j && Before([Join(current, rest[0])] + rest[1..], if i == 0 then 0 else i - 1, j - 1, a, high, b, low)
  {
    assert ([current] + rest)[1] == rest[0];
    if j == 1 {
      assert false;
    }
    assert ([current] + rest)[j] == rest[j - 1] == ([Join(current, rest[0])] + rest[1..])[j - 1];
  }

  lemma {:induction false} MergingCrossed(current: Tracked, rest: Table, a: Info, high: nat, b: Info, low: nat)
    requires current.Valid() && AllValid(rest) && low < high
    requires Crossed([current] + rest, a, high, b, low)
    ensures Crossed(CoalesceFrom(current, rest), a, high, b, low)
    decreases |rest|
  {
    var table := [current] + rest;
    var i: nat, j: nat :| Before(table, i, j, a, high, b, low);
    assert rest[j - 1] == table[j];
    if Joins(current, rest[0]) {
      JoinedCovers(current, rest, i, j, a, high, b, low);
      MergingCrossed(Join(current, rest[0]), rest[1..], a, high, b, low);
    } else {
      var tail := CoalesceFrom(rest[0], rest[1..]);
      var p: nat, q: nat;
      if i == 0 {
        AtCovered(rest, j - 1, low);
        AtTail(rest, low);
        CoalesceFromMeaning(rest[0], rest[1..], low);
        var k := AtWitness(tail, low, b);
        p, q := 0, k + 1;
      } else {
        assert rest == [rest[0]] + rest[1..];
        assert Before(rest, i - 1, j - 1, a, high, b, low);
        MergingCrossed(rest[0], rest[1..], a, high, b, low);
        var x: nat, y: nat :| Before(tail, x, y, a, high, b, low);
        p, q := x + 1, y + 1;
      }
      assert Before([current] + tail, p, q, a, high, b, low);
    }
  }

  /** Merging keeps a crossing: entries that cross are never neighbours that join. */
  lemma CoalesceCrossed(table: Table, a: Info, high: nat, b: Info, low: nat)
    requires AllValid(table) && low < high && Crossed(table, a, high, b, low)
    ensures Crossed(Coalesce(table), a, high, b, low)
  {
    assert table == [table[0]] + table[1..];
    MergingCrossed(table[0], table[1..], a, high, b, low);
  }

  // ---------------------------------------------------------------- inserting and cutting

  lemma InsertedCrossed(table: Table, index: nat, entry: Tracked, a: Info, high: nat, b: Info, low: nat)
    requires index <= |table| && Crossed(table, a, high, b, low)
    ensures Crossed(InsertedAt(table, index, entry), a, high, b, low)
  {
    var i: nat, j: nat :| Before(table, i, j, a, high, b, low);
    var p, q := if i < index then i else i + 1, if j < index then j else j + 1;
    InsertedEntry(table, index, entry, p);
    InsertedEntry(table, index, entry, q);
    assert Before(InsertedAt(table, index, entry), p, q, a, high, b, low);
  }

  /** Some piece of a cut entry covers each of its frames. */
  lemma PieceCovering(entry: Tracked, start: nat, pages: nat, tag: Info, rest: Info, frame: nat) returns (k: nat)
    requires Holds(entry, start, pages) && entry.Covers(frame)
    ensures k < |SplitEntry(entry, start, pages, tag, rest)|
    ensures SplitEntry(entry, start, pages, tag, rest)[k].Covers(frame)
  {
    var left := |Piece(entry.start, start - entry.start, rest)|;
    k := if frame < start then 0 else if frame < start + pages then left else left + 1;
  }

  lemma CutInverted(table: Table, index: nat, start: nat, pages: nat, tag: Info, rest: Info)
    requires AllValid(table) && Inverted(table) && 0 < pages
    requires index < |table| && Holds(table[index], start, pages) && table[index].tag.state != Reserved
    ensures Inverted(Retagged(table, index, start, pages, tag, rest))
  {
    hide SplitEntry;
    var a: Info, high: nat, b: Info, low: nat :| b.state == Reserved && low < high && Crossed(table, a, high, b, low);
    var i: nat, j: nat :| Before(table, i, j, a, high, b, low);
    var pieces := SplitEntry(table[index], start, pages, tag, rest);
    var after := Spliced(table, index, pieces);
    var p, q := i, if j < index then j else j - 1 + |pieces|;
    if i == index {
      var k := PieceCovering(table[index], start, pages, tag, rest, high);
      p := index + k;
    } else if i > index {
      p := i - 1 + |pieces|;
    }
    SplicedEntry(table, index, pieces, p);
    SplicedEntry(table, index, pieces, q);
    assert Before(after, p, q, after[p].tag, high, b, low);
    PiecesValid(table[index], start, pages, tag, rest);
    CoalesceCrossed(after, after[p].tag, high, b, low);
  }

  lemma PiecesValid(entry: Tracked, start: nat, pages: nat, tag: Info, rest: Info)
    requires entry.Valid() && Holds(entry, start, pages) && 0 < pages
    ensures AllValid(SplitEntry(entry, start, pages, tag, rest)) && 0 < |SplitEntry(entry, start, pages, tag, rest)|
  {
  }

  // ---------------------------------------------------------------- reserving

  lemma CarvedHead(entry: Tracked, start: nat, pages: nat, frame: nat) returns (k: nat)
    requires EntryOk(entry.start, entry.tag) && entry.Covers(frame)
    requires entry.tag.state == Free ==> !InRange(frame, start, pages)
    ensures k < |CarvedEntry(entry, start, pages)|
    ensures CarvedEntry(entry, start, pages)[k].Covers(frame) && CarvedEntry(entry, start, pages)[k].tag == entry.tag
  {
    hide CarvedEntry;
    AtSingle(entry, frame);
    CarvedEntryAt(entry, start, pages, frame);
    k := AtWitness(CarvedEntry(entry, start, pages), frame, entry.tag);
  }

  /** Carving keeps a crossing whose higher frame stays. */
  lemma {:induction false} CarvedCrossed(table: Table, start: nat, pages: nat, a: Info, high: nat, b: Info, low: nat)
    requires EntriesOk(table) && Crossed(table, a, high, b, low) && b.state == Reserved
    requires a.state == Free ==> !InRange(high, start, pages)
    ensures Crossed(Carved(table, start, pages), a, high, b, low)
  {
    hide CarvedEntry;
    var i: nat, j: nat :| Before(table, i, j, a, high, b, low);
    var head, tail := CarvedEntry(table[0], start, pages), Carved(table[1..], start, pages);
    var p: nat, q: nat;
    if i == 0 {
      var x := CarvedHead(table[0], start, pages, high);
      AtCovered(table[1..], j - 1, low);
      CarvedAt(table[1..], start, pages, low);
      var y := AtWitness(tail, low, b);
      p, q := x, |head| + y;
    } else {
      assert Before(table[1..], i - 1, j - 1, a, high, b, low);
      CarvedCrossed(table[1..], start, pages, a, high, b, low);
      var x: nat, y: nat :| Before(tail, x, y, a, high, b, low);
      p, q := |head| + x, |head| + y;
    }
    assert Before(head + tail, p, q, a, high, b, low);
  }

  /** A crossing whose higher entry the reservation swallows is one with the reservation instead. */
  lemma SwallowedCrossed(table: Table, i: nat, j: nat, a: Info, high: nat, b: Info, low: nat,
                         start: nat, pages: nat, owner: FrameOwner)
    requires TableOk(table) && Before(table, i, j, a, high, b, low) && 0 < pages
    requires b.state == Reserved && low < high && OnlyFree(table, start, pages)
    requires start <= table[i].start && InRange(high, start, pages)
    ensures low < start
    ensures Crossed(InsertedAt(table, FirstIndex(table, FirstAtOrAfter(start), 0), Range(start, pages, Info(Reserved, owner))),
                    Info(Reserved, owner), start, b, low)
  {
    var entry, index := Range(start, pages, Info(Reserved, owner)), FirstIndex(table, FirstAtOrAfter(start), 0);
    OnlyFreeMeets(table, j, start, pages);
    assert FirstAtOrAfter(start)(table[i]);
    InsertedEntry(table, index, entry, index);
    InsertedEntry(table, index, entry, j + 1);
    assert Before(InsertedAt(table, index, entry), index, j + 1, entry.tag, start, b, low);
  }

  /** The crossing a reservation leaves, before the carving. */
  lemma GrownCrossed(table: Table, start: nat, pages: nat, owner: FrameOwner)
      returns (a: Info, high: nat, b: Info, low: nat)
    requires TableOk(table) && Inverted(table) && 0 < pages && OnlyFree(table, start, pages)
    ensures b.state == Reserved && low < high && (a.state == Free ==> !InRange(high, start, pages))
    ensures Crossed(InsertedAt(table, FirstIndex(table, FirstAtOrAfter(start), 0), Range(start, pages, Info(Reserved, owner))),
                    a, high, b, low)
  {
    var entry, index := Range(start, pages, Info(Reserved, owner)), FirstIndex(table, FirstAtOrAfter(start), 0);
    a, high, b, low :| b.state == Reserved && low < high && Crossed(table, a, high, b, low);
    var i: nat, j: nat :| Before(table, i, j, a, high, b, low);
    if a.state == Free && InRange(high, start, pages) {
      if start <= table[i].start {
        SwallowedCrossed(table, i, j, a, high, b, low, start, pages, owner);
        a, high := entry.tag, start;
        return;
      }
      LowerFrame(table, i, j, high, b, low, start);
      high := start - 1;
      assert Before(table, i, j, a, high, b, low);
    }
    InsertedCrossed(table, index, entry, a, high, b, low);
  }

  /** Entries that cross do so at each of their frames, for no frame is recorded twice. */
  lemma LowerFrame(table: Table, i: nat, j: nat, high: nat, b: Info, low: nat, start: nat)
    requires TableOk(table) && i < j < |table| && Before(table, i, j, table[i].tag, high, b, low) && low < high
    requires table[i].start < start <= high
    ensures low < start - 1 && table[i].Covers(start - 1)
  {
    if table[i].start <= low {
      AtCoveredTwice(table, i, j, low);
      assert false;
    }
  }

  lemma ReserveInverted(table: Table, start: nat, pages: nat, owner: FrameOwner)
    requires TableOk(table) && Inverted(table) && OnlyFree(table, start, pages) && start + pages < PAGE_NUMBER_LIMIT
    ensures Inverted(ReservedTable(table, start, pages, owner))
  {
    var entry := Range(start, pages, Info(Reserved, owner));
    var a: Info, high: nat, b: Info, low: nat;
    var grown := Inserted(table, entry);
    if pages == 0 {
      a, high, b, low :| b.state == Reserved && low < high && Crossed(table, a, high, b, low);
    } else {
      a, high, b, low := GrownCrossed(table, start, pages, owner);
      CoalesceCrossed(InsertedAt(table, FirstIndex(table, FirstAtOrAfter(start), 0), entry), a, high, b, low);
    }
    InsertedMeaning(table, entry);
    CarvedCrossed(grown, start, pages, a, high, b, low);
    CarvedOk(grown, start, pages);
    CoalesceCrossed(Carved(grown, start, pages), a, high, b, low);
  }

  // ---------------------------------------------------------------- runs

  lemma AddInverted(table: Table, start: nat, pages: nat)
    requires AllValid(table) && Inverted(table) && start + pages < PAGE_NUMBER_LIMIT
    ensures Inverted(Inserted(table, Range(start, pages, FREE)))
  {
    if 0 < pages {
      var entry, index := Range(start, pages, FREE), FirstIndex(table, FirstAtOrAfter(start), 0);
      var a: Info, high: nat, b: Info, low: nat :| b.state == Reserved && low < high && Crossed(table, a, high, b, low);
      InsertedCrossed(table, index, entry, a, high, b, low);
      CoalesceCrossed(InsertedAt(table, index, entry), a, high, b, low);
    }
  }

  lemma StepInverted(table: Table, request: Request)
    requires TableOk(table) && Permitted(Meaning(table), request) && Inverted(table)
    ensures Inverted(Step(table, request))
  {
    hide Inverted, Retagged, Inserted, ReservedTable;
    match request
    case Add(start, pages) =>
      AddInverted(table, start, pages);
    case Reserve(start, pages, owner) =>
      OnlyFreeMeaning(table, start, pages);
      ReserveInverted(table, start, pages, owner);
    case Allocate(pages, owner) =>
      match AllocatedStart(table, pages) {
        case None =>
        case Some(start) =>
          var index := FirstIndex(table, FreeHolding(start, pages), 0);
          if index < |table| {
            CutInverted(table, index, start, pages, Info(Used, owner), FREE);
          }
      }
    case Release(start, pages, owner) =>
      var index := FirstIndex(table, UsedHolding(start, pages, owner), 0);
      if index < |table| {
        CutInverted(table, index, start, pages, FREE, Info(Used, owner));
      }
  }

  /** A hole leaves its reservation behind the frames above it. */
  lemma HoleInverts(table: Table, start: nat, pages: nat, owner: FrameOwner)
    requires Canonical(table) && PunchesHole(table, start, pages)
    ensures Inverted(ReservedTable(table, start, pages, owner))
  {
    var index: nat :| index < |table| && HoleIn(table[index], start, pages);
    HoleLeaves(table, index, start, pages, owner);
    var after := ReservedTable(table, start, pages, owner);
    assert Before(after, index + 1, index + 2, after[index + 1].tag, start + pages, Info(Reserved, owner), start);
    assert Crossed(after, after[index + 1].tag, start + pages, Info(Reserved, owner), start);
  }

  lemma {:induction false} RunInverted(table: Table, requests: seq<Request>)
    requires TableOk(table) && RunPermitted(table, requests) && Inverted(table)
    ensures Inverted(Run(table, requests))
    decreases |requests|
  {
    if requests != [] {
      StepRefines(table, requests[0]);
      StepInverted(table, requests[0]);
      RunInverted(Step(table, requests[0]), requests[1..]);
    }
  }

  ghost predicate NeverPunches(table: Table, requests: seq<Request>)
    decreases |requests|
  {
    requests == [] || (!Punches(table, requests[0]) && NeverPunches(Step(table, requests[0]), requests[1..]))
  }

  /** A run of permitted requests ends with the canonical encoding of its map exactly when none of
      its reservations punched a hole; nothing repairs the table afterwards. */
  lemma {:induction false} RunKeepsCanonical(table: Table, requests: seq<Request>)
    requires Canonical(table) && TableOk(table) && RunPermitted(table, requests)
    ensures TableOk(Run(table, requests))
    ensures Canonical(Run(table, requests)) <==> NeverPunches(table, requests)
    decreases |requests|
  {
    hide Inverted, Canonical, Permitted;
    if requests != [] {
      var next := Step(table, requests[0]);
      StepRefines(table, requests[0]);
      StepKeepsCanonical(table, requests[0]);
      if Punches(table, requests[0]) {
        RunRefines(next, requests[1..]);
        HoleInverts(table, requests[0].start, requests[0].pages, requests[0].owner);
        RunInverted(next, requests[1..]);
        InvertedNotCanonical(Run(table, requests));
      } else {
        RunKeepsCanonical(next, requests[1..]);
      }
    }
  }

  lemma InvertedNotCanonical(table: Table)
    requires Inverted(table)
    ensures !Canonical(table)
  {
    if Canonical(table) {
      OrderedNotInverted(table);
    }
  }
}
