/** The kernel virtual range allocator: a sorted, merged free list in a fixed array. */
module VirtualAllocator {
  import opened Machine
  import opened Ranges
  import opened RangeMaps
  import opened CanonicalRanges
  import opened RangeArrays

  const MAX_FREE_RANGES: nat := 128

  type FreeRange = Range<()>
  type FreeList = seq<FreeRange>

  /** Sorted, disjoint, merged, and inside the managed pages [lo, hi). */
  ghost predicate ListOk(list: FreeList, lo: nat, hi: nat) {
    && Canonical(list)
    && forall i :: 0 <= i < |list| ==> lo <= list[i].start && list[i].End() <= hi
  }

  /** The free pages a list stands for. */
  ghost function FreePages(list: FreeList): set<nat> {
    Meaning(list).Keys
  }

  lemma FreePageAt(list: FreeList, page: nat)
    ensures page in FreePages(list) <==> At(list, page) != multiset{}
  {
    MeaningSound(list, page);
  }

  function TotalPages(list: FreeList): nat {
    PagesWhere(list, (_: ()) => true)
  }

  /** The total is the number of free pages. */
  lemma TotalIsSize(list: FreeList)
    requires Ordered(list)
    ensures TotalPages(list) == |FreePages(list)|
  {
    OrderedExclusive(list);
    PagesCountFrames(list, (_: ()) => true);
    assert FramesWhere(Meaning(list), (_: ()) => true) == FreePages(list);
  }

  // ---------------------------------------------------------------- allocation

  /** What is left of a range when `pages` are taken from its front. */
  function Rest(range: FreeRange, pages: nat): FreeList
    requires pages <= range.pages
  {
    if range.pages == pages then [] else [Range(range.start + pages, range.pages - pages, ())]
  }

  function Shortened(list: FreeList, index: nat, pages: nat): FreeList
    requires index < |list| && pages <= list[index].pages
  {
    list[..index] + Rest(list[index], pages) + list[index + 1..]
  }

  lemma ShortenedEntry(list: FreeList, index: nat, pages: nat, i: nat)
    requires index < |list| && pages <= list[index].pages && i < |Shortened(list, index, pages)|
    ensures Shortened(list, index, pages)[i] ==
            if list[index].pages == pages then (if i < index then list[i] else list[i + 1])
            else if i == index then Range(list[index].start + pages, list[index].pages - pages, ())
            else list[i]
  {
  }

  lemma ShortenedOk(list: FreeList, index: nat, pages: nat, lo: nat, hi: nat)
    requires ListOk(list, lo, hi) && index < |list| && 0 < pages <= list[index].pages
    ensures ListOk(Shortened(list, index, pages), lo, hi)
  {
    var after := Shortened(list, index, pages);
    forall i | 0 <= i < |after| ensures after[i].Valid() && lo <= after[i].start && after[i].End() <= hi {
      ShortenedEntry(list, index, pages, i);
    }
    forall i, j | 0 <= i < j < |after| ensures after[i].End() <= after[j].start {
      ShortenedEntry(list, index, pages, i);
      ShortenedEntry(list, index, pages, j);
    }
    forall i | 0 <= i < |after| - 1 ensures !Joins(after[i], after[i + 1]) {
      ShortenedApart(list, index, pages, i);
    }
  }

  lemma ShortenedApart(list: FreeList, index: nat, pages: nat, i: nat)
    requires Canonical(list) && index < |list| && 0 < pages <= list[index].pages
    requires i + 1 < |Shortened(list, index, pages)|
    ensures !Joins(Shortened(list, index, pages)[i], Shortened(list, index, pages)[i + 1])
  {
    ShortenedEntry(list, index, pages, i);
    ShortenedEntry(list, index, pages, i + 1);
    if list[index].pages == pages && i + 1 == index {
      OrderedAt(list, i, index);
      OrderedAt(list, index, index + 1);
    } else if list[index].pages == pages && i >= index {
      assert !Joins(list[i + 1], list[i + 2]);
    } else if i + 1 == index {
      OrderedAt(list, i, index);
    } else if i == index {
      assert !Joins(list[i], list[i + 1]);
      assert list[i].tag == () && list[i + 1].tag == ();
      assert CheckedEnd(list[i].start + pages, list[i].pages - pages) == CheckedEnd(list[i].start, list[i].pages);
    } else {
      assert !Joins(list[i], list[i + 1]);
    }
  }

  /** Allocation removes exactly the pages handed out, all of which were free. */
  lemma ShortenedPages(list: FreeList, index: nat, pages: nat, page: nat)
    requires Canonical(list) && index < |list| && 0 < pages <= list[index].pages
    ensures page in FreePages(Shortened(list, index, pages)) <==>
            page in FreePages(list) && !InRange(page, list[index].start, pages)
    ensures InRange(page, list[index].start, pages) ==> page in FreePages(list)
  {
    var range, rest := list[index], Rest(list[index], pages);
    OrderedExclusive(list);
    FreePageAt(list, page);
    FreePageAt(Shortened(list, index, pages), page);
    AtSpliced(list, index, rest, page);
    AtSingle(range, page);
    AtSingle(Range(range.start + pages, range.pages - pages, ()), page);
    if InRange(page, range.start, pages) {
      assert |At(list, page)| <= 1;
    }
  }

  // ---------------------------------------------------------------- release

  /** First range that starts at or after `start`. */
  ghost predicate InsertionPoint(list: FreeList, start: nat, index: nat) {
    && index <= |list|
    && (forall i :: 0 <= i < index ==> list[i].start < start)
    && (index < |list| ==> start <= list[index].start)
  }

  /** The two checks `free_pages` makes, against the ranges on either side. */
  predicate NeighboursApart(list: FreeList, index: nat, start: nat, pages: nat)
    requires index <= |list|
  {
    && (0 < index ==> list[index - 1].End() <= start)
    && (index < |list| ==> start + pages <= list[index].start)
  }

  ghost predicate NoneFree(list: FreeList, start: nat, pages: nat) {
    forall page :: InRange(page, start, pages) ==> page !in FreePages(list)
  }

  lemma NoneFreeMeans(list: FreeList, start: nat, pages: nat)
    ensures NoneFree(list, start, pages) <==> forall page :: InRange(page, start, pages) ==> page !in FreePages(list)
  {
  }

  lemma ApartFromAll(list: FreeList, start: nat, pages: nat, index: nat, k: nat)
    requires Canonical(list) && InsertionPoint(list, start, index) && NeighboursApart(list, index, start, pages)
    requires k < |list|
    ensures if k < index then list[k].End() <= start else start + pages <= list[k].start
  {
    if k < index - 1 {
      OrderedAt(list, k, index - 1);
    } else if index < k {
      OrderedAt(list, index, k);
    }
  }

  /** Looking at two neighbours is as good as looking at every free page. */
  lemma NeighboursSuffice(list: FreeList, start: nat, pages: nat, index: nat)
    requires Canonical(list) && InsertionPoint(list, start, index) && 0 < pages
    ensures NeighboursApart(list, index, start, pages) <==> NoneFree(list, start, pages)
  {
    if NeighboursApart(list, index, start, pages) {
      forall page | InRange(page, start, pages) ensures page !in FreePages(list) {
        FreePageAt(list, page);
        if At(list, page) != multiset{} {
          var k := AtWitness(list, page, AnyTag(At(list, page)));
          ApartFromAll(list, start, pages, index, k);
          assert false;
        }
      }
    } else {
      var near := if 0 < index && start < list[index - 1].End() then index - 1 else index;
      var page := Max(list[near].start, start);
      AtCovered(list, near, page);
      FreePageAt(list, page);
      assert InRange(page, start, pages);
    }
  }

  ghost function AnyTag(tags: multiset<()>): ()
    requires tags != multiset{}
    ensures AnyTag(tags) in tags
  {
    var tag :| tag in tags; tag
  }

  function Restored(list: FreeList, index: nat, start: nat, pages: nat): FreeList
    requires index <= |list|
  {
    Coalesce(InsertedAt(list, index, Range(start, pages, ())))
  }

  lemma InsertedOrder(list: FreeList, index: nat, start: nat, pages: nat)
    requires Canonical(list) && InsertionPoint(list, start, index) && NeighboursApart(list, index, start, pages)
    ensures Ordered(InsertedAt(list, index, Range(start, pages, ())))
  {
    forall i | 0 <= i < |list| ensures if i < index then list[i].End() <= start else start + pages <= list[i].start {
      ApartFromAll(list, start, pages, index, i);
    }
    var grown := InsertedAt(list, index, Range(start, pages, ()));
    forall i, j | 0 <= i < j < |grown| ensures grown[i].End() <= grown[j].start {
      assert grown[i] == if i < index then list[i] else if i == index then Range(start, pages, ()) else list[i - 1];
      assert grown[j] == if j < index then list[j] else if j == index then Range(start, pages, ()) else list[j - 1];
    }
  }

  lemma RestoredOk(list: FreeList, index: nat, start: nat, pages: nat, lo: nat, hi: nat)
    requires ListOk(list, lo, hi) && InsertionPoint(list, start, index) && NeighboursApart(list, index, start, pages)
    requires 0 < pages && lo <= start && start + pages <= hi < PAGE_NUMBER_LIMIT
    ensures ListOk(Restored(list, index, start, pages), lo, hi)
    ensures forall page :: page in FreePages(Restored(list, index, start, pages)) <==>
              page in FreePages(list) || InRange(page, start, pages)
  {
    var range, after := Range(start, pages, ()), Restored(list, index, start, pages);
    var grown := InsertedAt(list, index, range);
    InsertedOrder(list, index, start, pages);
    assert AllValid(grown);
    CoalesceCanonical(grown);
    CoalesceMeaning(grown);
    forall page: nat
      ensures page in FreePages(after) <==> page in FreePages(list) || InRange(page, start, pages)
    {
      AtInserted(list, index, range, page);
      AtSingle(range, page);
      FreePageAt(list, page);
      FreePageAt(after, page);
    }
    forall i | 0 <= i < |after| ensures lo <= after[i].start && after[i].End() <= hi {
      EntryInside(list, after, start, pages, lo, hi, after[i].start, i);
      EntryInside(list, after, start, pages, lo, hi, after[i].End() - 1, i);
    }
  }

  lemma EntryInside(list: FreeList, after: FreeList, start: nat, pages: nat, lo: nat, hi: nat, page: nat, i: nat)
    requires ListOk(list, lo, hi) && lo <= start && start + pages <= hi
    requires i < |after| && after[i].Covers(page)
    requires forall p :: p in FreePages(after) ==> p in FreePages(list) || InRange(p, start, pages)
    ensures lo <= page < hi
  {
    AtCovered(after, i, page);
    FreePageAt(after, page);
    if page in FreePages(list) {
      FreePageAt(list, page);
      var k := AtWitness(list, page, AnyTag(At(list, page)));
    }
  }

  /** Returning the pages just allocated is accepted and restores the list range for range. */
  lemma AllocateThenFree(list: FreeList, index: nat, pages: nat, lo: nat, hi: nat, at: nat)
    requires ListOk(list, lo, hi) && hi < PAGE_NUMBER_LIMIT && index < |list| && 0 < pages <= list[index].pages
    requires InsertionPoint(Shortened(list, index, pages), list[index].start, at)
    ensures NeighboursApart(Shortened(list, index, pages), at, list[index].start, pages)
    ensures Restored(Shortened(list, index, pages), at, list[index].start, pages) == list
  {
    var taken, start := Shortened(list, index, pages), list[index].start;
    ShortenedOk(list, index, pages, lo, hi);
    forall page: nat
      ensures page in FreePages(taken) <==> page in FreePages(list) && !InRange(page, start, pages)
      ensures InRange(page, start, pages) ==> page in FreePages(list)
    {
      ShortenedPages(list, index, pages, page);
    }
    NeighboursSuffice(taken, start, pages, at);
    RestoredOk(taken, at, start, pages, lo, hi);
    SamePagesSameList(Restored(taken, at, start, pages), list);
  }

  lemma SamePagesSameList(s: FreeList, t: FreeList)
    requires Canonical(s) && Canonical(t) && FreePages(s) == FreePages(t)
    ensures s == t
  {
    OrderedExclusive(s);
    OrderedExclusive(t);
    forall page: nat ensures At(s, page) == At(t, page) {
      MeaningExact(s, page);
      MeaningExact(t, page);
      assert page in FreePages(s) <==> page in FreePages(t);
      if page in FreePages(s) {
        assert Meaning(s)[page] == () == Meaning(t)[page];
      }
    }
    CanonicalUnique(s, t);
  }

  // ---------------------------------------------------------------- the ledger of a run

  datatype Request = Allocate(pages: nat) | Free(start: nat, pages: nat)

  /** The allocator's answer: a range granted, a range taken back, or a refusal. */
  datatype Answer = Granted(start: nat) | Accepted | Refused

  /** What is handed out after one more request: granted pages are added, accepted ones removed. */
  function Settled(out: set<nat>, request: Request, answer: Answer): set<nat> {
    match request
    case Allocate(pages) => if answer.Granted? then out + Interval(answer.start, pages) else out
    case Free(start, pages) => if answer.Accepted? then out - Interval(start, pages) else out
  }

  /** The pages handed out after a run, replayed from its requests and answers alone. */
  function Outstanding(requests: seq<Request>, answers: seq<Answer>): set<nat>
    requires |requests| == |answers|
  {
    if requests == [] then {}
    else
      var last := |requests| - 1;
      Settled(Outstanding(requests[..last], answers[..last]), requests[last], answers[last])
  }

  /** An honest answer, given what is handed out: a grant is the lowest run that is managed and handed
      out to nobody, and is refused exactly when there is no such run; a release is accepted exactly when it was
      wholly handed out and the list of free ranges is not full. */
  ghost predicate Honest(out: set<nat>, request: Request, answer: Answer, lo: nat, hi: nat)
    requires lo <= hi
  {
    match request
    case Allocate(pages) =>
      && !answer.Accepted?
      && (answer.Granted? ==> Available(out, answer.start, pages, lo, hi) && NoneBelow(out, answer.start, pages, lo, hi))
      && (answer.Refused? <==> NoneAvailable(out, pages, lo, hi))
    case Free(start, pages) =>
      && !answer.Granted?
      && (answer.Accepted? <==> Interval(start, pages) <= out && !Full(out, lo, hi))
  }

  ghost predicate Available(out: set<nat>, start: nat, pages: nat, lo: nat, hi: nat)
    requires lo <= hi
  {
    Interval(start, pages) <= Interval(lo, hi - lo) - out
  }

  ghost predicate NoneAvailable(out: set<nat>, pages: nat, lo: nat, hi: nat)
    requires lo <= hi
  {
    forall start: nat :: !Available(out, start, pages, lo, hi)
  }

  ghost predicate NoneBelow(out: set<nat>, start: nat, pages: nat, lo: nat, hi: nat)
    requires lo <= hi
  {
    forall other: nat :: Available(out, other, pages, lo, hi) ==> start <= other
  }

  /** What is left free takes all the ranges the list has room for. */
  ghost predicate Full(out: set<nat>, lo: nat, hi: nat)
    requires lo <= hi
  {
    exists list: FreeList :: ListOk(list, lo, hi) && FreePages(list) == Interval(lo, hi - lo) - out && |list| == MAX_FREE_RANGES
  }

  lemma FullIs(list: FreeList, out: set<nat>, lo: nat, hi: nat)
    requires ListOk(list, lo, hi) && Partition(FreePages(list), out, lo, hi)
    ensures Full(out, lo, hi) <==> |list| == MAX_FREE_RANGES
  {
    hide FreePages;
    assert FreePages(list) == Interval(lo, hi - lo) - out;
    if Full(out, lo, hi) {
      var other: FreeList :| ListOk(other, lo, hi) && FreePages(other) == Interval(lo, hi - lo) - out && |other| == MAX_FREE_RANGES;
      SamePagesSameList(list, other);
    }
  }

  /** Every answer of a run is honest about the pages handed out at its time. */
  ghost predicate AllHonest(requests: seq<Request>, answers: seq<Answer>, lo: nat, hi: nat)
    requires lo <= hi && |answers| <= |requests|
  {
    forall i :: 0 <= i < |answers| ==> HonestAt(requests, answers, i, lo, hi)
  }

  ghost predicate HonestAt(requests: seq<Request>, answers: seq<Answer>, i: nat, lo: nat, hi: nat)
    requires lo <= hi && i < |answers| <= |requests|
  {
    Honest(Outstanding(requests[..i], answers[..i]), requests[i], answers[i], lo, hi)
  }

  lemma AllHonestMore(requests: seq<Request>, answers: seq<Answer>, answer: Answer, lo: nat, hi: nat)
    requires lo <= hi && |answers| < |requests| && AllHonest(requests, answers, lo, hi)
    requires Honest(Outstanding(requests[..|answers|], answers), requests[|answers|], answer, lo, hi)
    ensures AllHonest(requests, answers + [answer], lo, hi)
  {
    hide Honest, Outstanding;
    forall i | 0 <= i < |answers| + 1 ensures HonestAt(requests, answers + [answer], i, lo, hi) {
      if i < |answers| {
        assert HonestAt(requests, answers, i, lo, hi);
        assert (answers + [answer])[..i] == answers[..i];
      } else {
        assert (answers + [answer])[..i] == answers;
      }
    }
  }

  lemma OutstandingMore(requests: seq<Request>, answers: seq<Answer>, answer: Answer, index: nat)
    requires index < |requests| && |answers| == index
    ensures Outstanding(requests[..index + 1], answers + [answer]) ==
            Settled(Outstanding(requests[..index], answers), requests[index], answer)
  {
    assert requests[..index + 1][..index] == requests[..index];
    assert (answers + [answer])[..index] == answers;
  }

  // ---------------------------------------------------------------- the allocator

  class KernelVirtualRangeAllocator {
    const managedStart: nat
    const managedPages: nat
    const ranges: array<FreeRange>
    var count: nat

    ghost predicate InBounds()
      reads this
    {
      && ranges.Length == MAX_FREE_RANGES && count <= MAX_FREE_RANGES
      && 0 < managedPages && managedStart + managedPages < PAGE_NUMBER_LIMIT
    }

    ghost function List(): FreeList
      requires InBounds()
      reads this, ranges
    {
      ranges[..count]
    }

    ghost predicate Valid()
      reads this, ranges
    {
      InBounds() && ListOk(List(), managedStart, managedStart + managedPages)
    }

    ghost function Free(): set<nat>
      requires InBounds()
      reads this, ranges
    {
      FreePages(List())
    }

    constructor (start: nat, pages: nat)
      requires 0 < pages && start + pages < PAGE_NUMBER_LIMIT
      ensures Valid() && managedStart == start && managedPages == pages && fresh(ranges)
      ensures List() == [Range(start, pages, ())]
    {
      managedStart := start;
      managedPages := pages;
      ranges := new FreeRange[MAX_FREE_RANGES](_ => Range(start, pages, ()));
      count := 1;
      new;
      assert ranges[..1] == [Range(start, pages, ())];
    }

    /** First fit. Refused exactly when no run of `pages` free pages exists. */
    method AllocatePages(pages: nat) returns (r: Option<nat>)
      requires Valid() && 0 < pages
      modifies this, ranges
      ensures Valid()
      ensures r.None? ==> List() == old(List())
      ensures r.None? <==> !exists start: nat :: RunFree(old(Free()), start, pages)
      ensures r.Some? ==>
                && managedStart <= r.value && r.value + pages <= managedStart + managedPages
                && RunFree(old(Free()), r.value, pages) && LowestFree(old(Free()), r.value, pages)
                && (forall page :: page in Free() <==> page in old(Free()) && !InRange(page, r.value, pages))
    {
      ghost var before := List();
      for index := 0 to count
        invariant List() == before
        invariant forall i :: 0 <= i < index ==> before[i].pages < pages
      {
        var range := ranges[index];
        if range.pages < pages {
          continue;
        }
        ShortenedOk(before, index, pages, managedStart, managedStart + managedPages);
        forall page: nat
          ensures page in FreePages(Shortened(before, index, pages)) <==>
                  page in FreePages(before) && !InRange(page, range.start, pages)
          ensures InRange(page, range.start, pages) ==> page in FreePages(before)
        {
          ShortenedPages(before, index, pages, page);
        }
        TakeFront(index, pages);
        assert RunFree(old(Free()), range.start, pages);
        FirstIsLowest(before, index, pages);
        return Some(range.start);
      }
      NoLongRange(before, pages);
      return None;
    }

    /** Drop the range at `index` when it is used up, shorten it otherwise. */
    method TakeFront(index: nat, pages: nat)
      requires InBounds() && index < count && pages <= List()[index].pages
      modifies this, ranges
      ensures InBounds() && List() == Shortened(old(List()), index, pages)
    {
      ghost var before := List();
      if ranges[index].pages == pages {
        ShiftOut(ranges, count, index);
        count := count - 1;
      } else {
        ranges[index] := Range(ranges[index].start + pages, ranges[index].pages - pages, ());
        assert List() == before[index := ranges[index]];
      }
    }

    method FindInsertionPoint(start: nat) returns (index: nat)
      requires InBounds()
      ensures index <= count && InsertionPoint(List(), start, index)
    {
      index := 0;
      while index < count && ranges[index].start < start
        invariant index <= count
        invariant forall i :: 0 <= i < index ==> ranges[i].start < start
      {
        index := index + 1;
      }
    }

    /** A range goes back exactly when it lies in the managed pages, none of it is free already,
        and a slot is left. */
    method FreePagesAt(start: nat, pages: nat) returns (accepted: bool)
      requires Valid() && 0 < pages
      modifies this, ranges
      ensures Valid()
      ensures accepted <==>
                && managedStart <= start && start + pages <= managedStart + managedPages
                && (forall page :: InRange(page, start, pages) ==> page !in old(Free()))
                && old(count) < MAX_FREE_RANGES
      ensures !accepted ==> List() == old(List())
      ensures accepted ==> forall page :: page in Free() <==> page in old(Free()) || InRange(page, start, pages)
    {
      hide Canonical, FreePages, Coalesce, InsertionPoint, NoneFree;
      ghost var before := List();
      if start < managedStart || start + pages > managedStart + managedPages {
        return false;
      }
      var index := FindInsertionPoint(start);
      NoneFreeMeans(before, start, pages);
      NeighboursSuffice(before, start, pages, index);
      if 0 < index && ranges[index - 1].End() > start {
        return false;
      }
      if index < count && start + pages > ranges[index].start {
        return false;
      }
      if count >= MAX_FREE_RANGES {
        return false;
      }
      RestoredOk(before, index, start, pages, managedStart, managedStart + managedPages);
      ShiftIn(ranges, count, index, Range(start, pages, ()));
      count := MergeAdjacent(ranges, count + 1);
      return true;
    }

    /** One request. The pages handed out before it are those neither free nor unmanaged. */
    method Answered(request: Request, ghost out: set<nat>) returns (answer: Answer)
      requires Valid() && 0 < request.pages && Accounts(out)
      modifies this, ranges
      ensures Valid() && Accounts(Settled(out, request, answer))
      ensures Honest(out, request, answer, managedStart, managedStart + managedPages)
    {
      hide ListOk, FreePages, RunFree, Full;
      FullIs(List(), out, managedStart, managedStart + managedPages);
      match request
      case Allocate(pages) =>
        ghost var free := Free();
        var found := AllocatePages(pages);
        ManagedRuns(free, out, pages, managedStart, managedStart + managedPages);
        answer := if found.Some? then Granted(found.value) else Refused;
      case Free(start, pages) =>
        ghost var free := Free();
        var accepted := FreePagesAt(start, pages);
        TakenPages(free, out, start, pages, managedStart, managedStart + managedPages);
        answer := if accepted then Accepted else Refused;
    }

    /** Free pages and handed-out pages make up the managed ones, without overlap. */
    ghost predicate Accounts(out: set<nat>)
      requires InBounds()
      reads this, ranges
    {
      Partition(Free(), out, managedStart, managedStart + managedPages)
    }

    /** Any run of requests on a fresh allocator: every answer is honest with respect to the pages
        then handed out, and remaining plus handed-out pages is the managed size. */
    method Run(requests: seq<Request>) returns (answers: seq<Answer>, remaining: nat)
      requires Valid() && List() == [Range(managedStart, managedPages, ())]
      requires forall i :: 0 <= i < |requests| ==> 0 < requests[i].pages
      modifies this, ranges
      ensures Valid() && |answers| == |requests|
      ensures remaining + |Outstanding(requests, answers)| == managedPages
      ensures AllHonest(requests, answers, managedStart, managedStart + managedPages)
    {
      hide ListOk, Honest, Partition, AllHonest, Outstanding, FreePages, Settled, Interval, Canonical;
      answers := [];
      FreshAccounts();
      NothingOut(requests, managedStart, managedStart + managedPages);
      for index := 0 to |requests|
        invariant Valid() && |answers| == index && Accounts(Outstanding(requests[..index], answers))
        invariant AllHonest(requests, answers, managedStart, managedStart + managedPages)
      {
        var answer := Answered(requests[index], Outstanding(requests[..index], answers));
        OutstandingMore(requests, answers, answer, index);
        AllHonestMore(requests, answers, answer, managedStart, managedStart + managedPages);
        answers := answers + [answer];
      }
      assert requests[..|requests|] == requests;
      remaining := RemainingPages();
      PartitionSize(Free(), Outstanding(requests, answers), managedStart, managedStart + managedPages);
    }

    lemma FreshAccounts()
      requires Valid() && List() == [Range(managedStart, managedPages, ())]
      ensures Accounts({})
    {
      forall page: nat ensures page in Free() <==> managedStart <= page < managedStart + managedPages {
        FreePageAt(List(), page);
        AtSingle(List()[0], page);
      }
    }

    /** The number of free pages. */
    method RemainingPages() returns (pages: nat)
      requires Valid()
      ensures pages == |Free()|
    {
      pages := 0;
      OrderedExclusive(List());
      PagesBounded(List(), (_: ()) => true);
      for index := 0 to count
        invariant pages == PagesWhere(List()[..index], (_: ()) => true)
      {
        PagesPrefix(List(), (_: ()) => true, index);
        pages := SaturatingAdd(pages, ranges[index].pages);
      }
      assert List()[..count] == List();
      TotalIsSize(List());
    }
  }

  ghost predicate RunFree(free: set<nat>, start: nat, pages: nat) {
    forall page :: InRange(page, start, pages) ==> page in free
  }

  /** No run of `pages` free pages starts below `start`. */
  ghost predicate LowestFree(free: set<nat>, start: nat, pages: nat) {
    forall other: nat :: RunFree(free, other, pages) ==> start <= other
  }

  lemma RunInRange(list: FreeList, start: nat, pages: nat) returns (index: nat)
    requires Canonical(list) && 0 < pages && RunFree(FreePages(list), start, pages)
    ensures index < |list| && list[index].start <= start && start + pages <= list[index].End()
  {
    forall page | start <= page < start + pages ensures () in At(list, page) {
      assert InRange(page, start, pages);
      FreePageAt(list, page);
      assert AnyTag(At(list, page)) == ();
    }
    index := RunInsideEntry(list, start, pages, ());
  }

  lemma NoLongRange(list: FreeList, pages: nat)
    requires Canonical(list) && 0 < pages
    requires forall i :: 0 <= i < |list| ==> list[i].pages < pages
    ensures !exists start: nat :: RunFree(FreePages(list), start, pages)
  {
    if start: nat :| RunFree(FreePages(list), start, pages) {
      var index := RunInRange(list, start, pages);
      assert false;
    }
  }

  lemma FirstIsLowest(list: FreeList, first: nat, pages: nat)
    requires Canonical(list) && 0 < pages && first < |list|
    requires forall i :: 0 <= i < first ==> list[i].pages < pages
    ensures LowestFree(FreePages(list), list[first].start, pages)
  {
    forall other: nat | RunFree(FreePages(list), other, pages) ensures list[first].start <= other {
      var index := RunInRange(list, other, pages);
      if first < index {
        OrderedAt(list, first, index);
      }
    }
  }

  lemma NothingOut(requests: seq<Request>, lo: nat, hi: nat)
    requires lo <= hi
    ensures Outstanding(requests[..0], []) == {} && AllHonest(requests, [], lo, hi)
  {
  }

  ghost predicate Partition(free: set<nat>, out: set<nat>, lo: nat, hi: nat) {
    lo <= hi && free !! out && free + out == Interval(lo, hi - lo)
  }

  lemma PartitionSize(free: set<nat>, out: set<nat>, lo: nat, hi: nat)
    requires Partition(free, out, lo, hi)
    ensures |free| + |out| == hi - lo
  {
    IntervalSize(lo, hi - lo);
    assert |free + out| == |free| + |out|;
  }

  /** A run is free exactly when it is managed and handed out to nobody. */
  lemma ManagedRuns(free: set<nat>, out: set<nat>, pages: nat, lo: nat, hi: nat)
    requires lo <= hi && Partition(free, out, lo, hi)
    ensures forall start: nat :: RunFree(free, start, pages) <==> Available(out, start, pages, lo, hi)
  {
  }

  /** A range is managed with no page free exactly when it is wholly handed out. */
  lemma TakenPages(free: set<nat>, out: set<nat>, start: nat, pages: nat, lo: nat, hi: nat)
    requires Partition(free, out, lo, hi) && 0 < pages
    ensures Interval(start, pages) <= out <==>
            lo <= start && start + pages <= hi && forall page :: InRange(page, start, pages) ==> page !in free
  {
  }
}
