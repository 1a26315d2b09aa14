/** Range tables as maps from page to tag: painting, and counting the pages of a class. */
module RangeMaps {
  import opened Machine
  import opened Ranges

  predicate Holds<T>(entry: Range<T>, start: nat, pages: nat) {
    entry.start <= start && start + pages <= entry.End()
  }

  predicate InRange(frame: nat, start: nat, pages: nat) {
    start <= frame < start + pages
  }

  /** The tags at every frame: those of [start, start + pages) become `tag`, no other changes. */
  ghost predicate Repainted<T(!new)>(before: seq<Range<T>>, after: seq<Range<T>>, start: nat, pages: nat, tag: T) {
    forall frame :: At(after, frame) == if InRange(frame, start, pages) then multiset{tag} else At(before, frame)
  }

  lemma RepaintedExclusive<T(!new)>(before: seq<Range<T>>, after: seq<Range<T>>, start: nat, pages: nat, tag: T)
    requires Exclusive(before) && Repainted(before, after, start, pages, tag)
    ensures Exclusive(after)
  {
    forall frame ensures |At(after, frame)| <= 1 {
      assert |At(before, frame)| <= 1;
    }
  }

  /** Every frame of [start, start + pages) is recorded as `tag` and nothing else. */
  ghost predicate AllTagged<T(!new)>(table: seq<Range<T>>, start: nat, pages: nat, tag: T) {
    forall frame :: InRange(frame, start, pages) ==> At(table, frame) == multiset{tag}
  }

  lemma HeldTagged<T(!new)>(table: seq<Range<T>>, index: nat, start: nat, pages: nat)
    requires Exclusive(table) && index < |table| && Holds(table[index], start, pages)
    ensures AllTagged(table, start, pages, table[index].tag)
  {
    forall frame | InRange(frame, start, pages)
      ensures At(table, frame) == multiset{table[index].tag}
    {
      AtExclusive(table, index, frame);
    }
  }

  ghost predicate Untracked<T(!new)>(table: seq<Range<T>>, start: nat, pages: nat) {
    forall frame :: InRange(frame, start, pages) ==> At(table, frame) == multiset{}
  }

  function IntervalMap<T(!new)>(entry: Range<T>): map<nat, T> {
    map frame: nat | entry.start <= frame < entry.End() && entry.Covers(frame) :: entry.tag
  }

  /** The map a table stands for. */
  ghost function Meaning<T(!new)>(table: seq<Range<T>>): map<nat, T> {
    if table == [] then map[] else Meaning(table[1..]) + IntervalMap(table[0])
  }

  /** The map with frames [start, start + pages) set to `tag`. */
  ghost function Painted<T(!new)>(frames: map<nat, T>, start: nat, pages: nat, tag: T): map<nat, T> {
    frames + IntervalMap(Range(start, pages, tag))
  }

  ghost predicate AllHave<T(!new)>(frames: map<nat, T>, start: nat, pages: nat, tag: T) {
    forall frame :: InRange(frame, start, pages) ==> frame in frames && frames[frame] == tag
  }

  lemma {:induction false} MeaningSound<T(!new)>(table: seq<Range<T>>, frame: nat)
    ensures frame in Meaning(table) <==> At(table, frame) != multiset{}
    ensures frame in Meaning(table) ==> Meaning(table)[frame] in At(table, frame)
  {
    if table != [] {
      MeaningSound(table[1..], frame);
    }
  }

  /** In an exclusive table the map says exactly what is recorded at a frame. */
  lemma MeaningExact<T(!new)>(table: seq<Range<T>>, frame: nat)
    requires Exclusive(table)
    ensures At(table, frame) == if frame in Meaning(table) then multiset{Meaning(table)[frame]} else multiset{}
  {
    MeaningSound(table, frame);
    assert |At(table, frame)| <= 1;
    if frame in Meaning(table) {
      SingletonMultiset(At(table, frame), Meaning(table)[frame]);
    }
  }

  lemma SingletonMultiset<T>(m: multiset<T>, x: T)
    requires x in m && |m| <= 1
    ensures m == multiset{x}
  {
    assert m == multiset{x} + (m - multiset{x});
    assert |m - multiset{x}| == 0;
  }

  lemma PaintedAt<T(!new)>(frames: map<nat, T>, start: nat, pages: nat, tag: T, frame: nat)
    ensures frame in Painted(frames, start, pages, tag) <==> InRange(frame, start, pages) || frame in frames
    ensures InRange(frame, start, pages) ==> Painted(frames, start, pages, tag)[frame] == tag
    ensures !InRange(frame, start, pages) && frame in frames ==> Painted(frames, start, pages, tag)[frame] == frames[frame]
  {
    assert Range(start, pages, tag).Covers(frame) <==> InRange(frame, start, pages);
  }

  lemma SameMap<T(!new)>(a: map<nat, T>, b: map<nat, T>)
    requires forall frame: nat :: frame in a <==> frame in b
    requires forall frame: nat :: frame in a ==> a[frame] == b[frame]
    ensures a == b
  {
  }

  /** Repainting a table repaints its map. */
  lemma RepaintedMeaning<T(!new)>(before: seq<Range<T>>, after: seq<Range<T>>, start: nat, pages: nat, tag: T)
    requires Exclusive(before) && Exclusive(after) && Repainted(before, after, start, pages, tag)
    ensures Meaning(after) == Painted(Meaning(before), start, pages, tag)
  {
    var painted := Painted(Meaning(before), start, pages, tag);
    forall frame: nat
      ensures frame in Meaning(after) <==> frame in painted
      ensures frame in Meaning(after) ==> Meaning(after)[frame] == painted[frame]
    {
      RepaintedMeaningAt(before, after, start, pages, tag, frame);
      PaintedAt(Meaning(before), start, pages, tag, frame);
    }
    SameMap(Meaning(after), painted);
  }

  lemma RepaintedMeaningAt<T(!new)>(before: seq<Range<T>>, after: seq<Range<T>>, start: nat, pages: nat, tag: T, frame: nat)
    requires Exclusive(before) && Exclusive(after) && Repainted(before, after, start, pages, tag)
    ensures frame in Meaning(after) <==> InRange(frame, start, pages) || frame in Meaning(before)
    ensures frame in Meaning(after) ==>
              Meaning(after)[frame] == if InRange(frame, start, pages) then tag else Meaning(before)[frame]
  {
    MeaningExact(before, frame);
    MeaningExact(after, frame);
    assert At(after, frame) == if InRange(frame, start, pages) then multiset{tag} else At(before, frame);
    if frame in Meaning(after) {
      assert Meaning(after)[frame] in At(after, frame);
    }
  }

  lemma TaggedMeaning<T(!new)>(table: seq<Range<T>>, start: nat, pages: nat, tag: T)
    requires Exclusive(table)
    ensures AllTagged(table, start, pages, tag) <==> AllHave(Meaning(table), start, pages, tag)
  {
    forall frame
      ensures At(table, frame) == multiset{tag} <==> frame in Meaning(table) && Meaning(table)[frame] == tag
    {
      MeaningExact(table, frame);
      if frame in Meaning(table) && At(table, frame) == multiset{tag} {
        assert Meaning(table)[frame] in At(table, frame);
      }
    }
  }

  lemma UntrackedMeaning<T(!new)>(table: seq<Range<T>>, start: nat, pages: nat)
    requires Exclusive(table)
    requires forall frame :: InRange(frame, start, pages) ==> frame !in Meaning(table)
    ensures Untracked(table, start, pages)
  {
    forall frame | InRange(frame, start, pages) ensures At(table, frame) == multiset{} {
      MeaningExact(table, frame);
    }
  }

  /** Sum of the lengths of the entries selected by `wanted`. */
  function PagesWhere<T(!new)>(table: seq<Range<T>>, wanted: T -> bool): nat {
    if table == [] then 0
    else (if wanted(table[0].tag) then table[0].pages else 0) + PagesWhere(table[1..], wanted)
  }

  ghost function FramesWhere<T(!new)>(frames: map<nat, T>, wanted: T -> bool): set<nat> {
    set frame | frame in frames && wanted(frames[frame])
  }

  function Interval(start: nat, pages: nat): (r: set<nat>)
    ensures forall frame :: frame in r <==> start <= frame < start + pages
    decreases pages
  {
    if pages == 0 then {} else Interval(start, pages - 1) + {start + pages - 1}
  }

  lemma {:induction false} IntervalSize(start: nat, pages: nat)
    ensures |Interval(start, pages)| == pages
    decreases pages
  {
    if pages > 0 {
      IntervalSize(start, pages - 1);
    }
  }

  lemma BoundedSize(frames: set<nat>, limit: nat)
    requires forall frame :: frame in frames ==> frame < limit
    ensures |frames| <= limit
  {
    IntervalSize(0, limit);
    assert frames <= Interval(0, limit);
    SubsetSize(frames, Interval(0, limit));
  }

  lemma SubsetSize(a: set<nat>, b: set<nat>)
    requires a <= b
    ensures |a| <= |b|
  {
    assert b == a + (b - a);
  }

  lemma ExclusiveTail<T(!new)>(table: seq<Range<T>>)
    requires Exclusive(table) && table != []
    ensures Exclusive(table[1..])
    ensures forall frame :: table[0].Covers(frame) ==> At(table[1..], frame) == multiset{}
  {
    forall frame: nat ensures |At(table[1..], frame)| <= 1 && (table[0].Covers(frame) ==> At(table[1..], frame) == multiset{}) {
      assert |At(table, frame)| <= 1;
    }
  }

  lemma FramesWhereCons<T(!new)>(table: seq<Range<T>>, wanted: T -> bool)
    requires Exclusive(table) && table != []
    ensures FramesWhere(Meaning(table[1..]), wanted) !! Interval(table[0].start, table[0].pages)
    ensures FramesWhere(Meaning(table), wanted)
         == FramesWhere(Meaning(table[1..]), wanted)
            + (if wanted(table[0].tag) then Interval(table[0].start, table[0].pages) else {})
  {
    ExclusiveTail(table);
    forall frame: nat | table[0].Covers(frame) ensures frame !in Meaning(table[1..]) {
      MeaningSound(table[1..], frame);
    }
    assert forall frame: nat :: frame in IntervalMap(table[0]) <==> table[0].Covers(frame);
    assert forall frame: nat :: frame in Interval(table[0].start, table[0].pages) <==> table[0].Covers(frame);
  }

  /** A page total is the number of distinct frames in that class. */
  lemma {:induction false} PagesCountFrames<T(!new)>(table: seq<Range<T>>, wanted: T -> bool)
    requires Exclusive(table)
    ensures PagesWhere(table, wanted) == |FramesWhere(Meaning(table), wanted)|
  {
    if table == [] {
      assert FramesWhere(Meaning(table), wanted) == {};
    } else {
      ExclusiveTail(table);
      PagesCountFrames(table[1..], wanted);
      FramesWhereCons(table, wanted);
      IntervalSize(table[0].start, table[0].pages);
    }
  }

  lemma FrameBelowLimit<T(!new)>(table: seq<Range<T>>, frame: nat)
    requires AllValid(table) && frame in Meaning(table)
    ensures frame < PAGE_NUMBER_LIMIT
  {
    MeaningSound(table, frame);
    var index := AtWitness(table, frame, Meaning(table)[frame]);
    assert table[index].Valid();
  }

  /** Totals stay far below 64 bits, so the saturating additions never saturate. */
  lemma PagesBounded<T(!new)>(table: seq<Range<T>>, wanted: T -> bool)
    requires AllValid(table) && Exclusive(table)
    ensures PagesWhere(table, wanted) <= PAGE_NUMBER_LIMIT
  {
    PagesCountFrames(table, wanted);
    forall frame | frame in FramesWhere(Meaning(table), wanted) ensures frame < PAGE_NUMBER_LIMIT {
      FrameBelowLimit(table, frame);
    }
    BoundedSize(FramesWhere(Meaning(table), wanted), PAGE_NUMBER_LIMIT);
  }

  lemma {:induction false} PagesPrefix<T(!new)>(table: seq<Range<T>>, wanted: T -> bool, index: nat)
    requires index < |table|
    ensures PagesWhere(table[..index + 1], wanted)
         == PagesWhere(table[..index], wanted) + (if wanted(table[index].tag) then table[index].pages else 0)
    ensures PagesWhere(table[..index + 1], wanted) <= PagesWhere(table, wanted)
    decreases |table|
  {
    if index == 0 {
      assert table[..1][1..] == [];
    } else {
      PagesPrefix(table[1..], wanted, index - 1);
      assert table[..index + 1][1..] == table[1..][..index];
      assert table[..index][1..] == table[1..][..index - 1];
    }
  }

  ghost function Outside<T(!new)>(frames: map<nat, T>, start: nat, pages: nat, wanted: T -> bool): set<nat> {
    FramesWhere(frames, wanted) - Interval(start, pages)
  }

  lemma ClassCount<T(!new)>(frames: map<nat, T>, start: nat, pages: nat, tag: T, wanted: T -> bool)
    requires AllHave(frames, start, pages, tag)
    ensures |FramesWhere(frames, wanted)| == |Outside(frames, start, pages, wanted)| + (if wanted(tag) then pages else 0)
  {
    var outside, inside := Outside(frames, start, pages, wanted), Interval(start, pages);
    IntervalSize(start, pages);
    forall frame | frame in inside ensures frame in FramesWhere(frames, wanted) <==> wanted(tag) {
      assert InRange(frame, start, pages);
    }
    if wanted(tag) {
      assert FramesWhere(frames, wanted) == outside + inside;
    } else {
      assert FramesWhere(frames, wanted) == outside;
    }
  }

  lemma PaintedOutside<T(!new)>(frames: map<nat, T>, start: nat, pages: nat, tag: T, wanted: T -> bool)
    ensures Outside(Painted(frames, start, pages, tag), start, pages, wanted) == Outside(frames, start, pages, wanted)
    ensures AllHave(Painted(frames, start, pages, tag), start, pages, tag)
  {
    forall frame: nat
      ensures frame in Outside(Painted(frames, start, pages, tag), start, pages, wanted)
         <==> frame in Outside(frames, start, pages, wanted)
      ensures InRange(frame, start, pages) ==>
                frame in Painted(frames, start, pages, tag) && Painted(frames, start, pages, tag)[frame] == tag
    {
      PaintedAt(frames, start, pages, tag, frame);
    }
  }

  /** Repainting frames that all had one tag moves exactly that many frames between classes. */
  lemma PaintedCount<T(!new)>(frames: map<nat, T>, start: nat, pages: nat, was: T, tag: T, wanted: T -> bool)
    requires AllHave(frames, start, pages, was)
    ensures |FramesWhere(Painted(frames, start, pages, tag), wanted)| + (if wanted(was) then pages else 0)
         == |FramesWhere(frames, wanted)| + (if wanted(tag) then pages else 0)
  {
    PaintedOutside(frames, start, pages, tag, wanted);
    ClassCount(frames, start, pages, was, wanted);
    ClassCount(Painted(frames, start, pages, tag), start, pages, tag, wanted);
  }
}
