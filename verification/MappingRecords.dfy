/** The fixed table of private mapping records, in page numbers: which pages it tracks, the
    search for a free range, and what unmapping and replacing do to it. */
module MappingRecords {
  import opened Machine

  const MAX_USER_MAPPINGS: nat := 32
  const MAPPING_BASE: nat := 0x6_0000_0000
  const MAPPING_END: nat := 0x7_0000_0000

  datatype Source = Anonymous | FilePrivate

  datatype Record = Record(start: nat, pages: nat, source: Source) {
    function End(): nat {
      start + pages
    }
  }

  type Records = seq<Option<Record>>

  /** A non-empty page range inside the mapping region. */
  predicate RangeOk(start: nat, pages: nat) {
    0 < pages && MAPPING_BASE <= start && start + pages <= MAPPING_END
  }

  /** A range is acceptable exactly when it has pages, all of them in the mapping region. */
  lemma RangeOkExact(start: nat, pages: nat)
    ensures RangeOk(start, pages) <==>
            0 < pages && forall page: nat :: start <= page < start + pages ==> InMappingRegion(page * 4096)
  {
    if 0 < pages && InMappingRegion(start * 4096) && InMappingRegion((start + pages - 1) * 4096) {
      assert RangeOk(start, pages);
    }
  }

  predicate InMappingRegion(address: nat) {
    0x6000_0000_0000 <= address < 0x7000_0000_0000
  }

  predicate Apart(start: nat, pages: nat, record: Record) {
    start + pages <= record.start || record.End() <= start
  }

  predicate Meets(lo: nat, hi: nat, record: Record) {
    lo < record.End() && record.start < hi
  }

  predicate Overlaps(start: nat, pages: nat, record: Record) {
    Meets(start, start + pages, record)
  }

  /** The slot holds a record of `page` with this source. */
  predicate Covers(slot: Option<Record>, page: nat, source: Source) {
    slot.Some? && slot.value.start <= page < slot.value.End() && slot.value.source == source
  }

  ghost predicate Tracks(records: Records, page: nat, source: Source) {
    exists i :: 0 <= i < |records| && Covers(records[i], page, source)
  }

  ghost predicate Recorded(records: Records, page: nat) {
    Tracks(records, page, Anonymous) || Tracks(records, page, FilePrivate)
  }

  ghost predicate RecordsOk(records: Records) {
    && |records| == MAX_USER_MAPPINGS
    && (forall i :: 0 <= i < |records| && records[i].Some? ==> RangeOk(records[i].value.start, records[i].value.pages))
    && (forall i, j :: 0 <= i < j < |records| && records[i].Some? && records[j].Some? ==>
          Apart(records[i].value.start, records[i].value.pages, records[j].value))
  }

  /** [start, start + pages) meets no record. */
  ghost predicate RangeFree(records: Records, start: nat, pages: nat) {
    forall i :: 0 <= i < |records| && records[i].Some? ==> !Overlaps(start, pages, records[i].value)
  }

  lemma FreeUntracked(records: Records, start: nat, pages: nat, page: nat)
    requires RangeFree(records, start, pages) && start <= page < start + pages
    ensures !Recorded(records, page)
  {
  }

  // ---------------------------------------------------------------- searching

  /** `next_empty_record_index`. */
  function NextEmpty(records: Records, from: nat := 0): (r: Option<nat>)
    requires from <= |records|
    ensures r.Some? ==> from <= r.value < |records| && records[r.value].None?
    ensures r.None? <==> forall i :: from <= i < |records| ==> records[i].Some?
    decreases |records| - from
  {
    if from == |records| then None
    else if records[from].None? then Some(from)
    else NextEmpty(records, from + 1)
  }

  /** `overlapping_record_end`: the largest end among overlapping records. */
  function OverlapEnd(records: Records, start: nat, pages: nat, from: nat := 0): (r: Option<nat>)
    requires from <= |records|
    ensures r.None? <==> forall i :: from <= i < |records| && records[i].Some? ==> !Overlaps(start, pages, records[i].value)
    ensures r.Some? ==> exists i :: from <= i < |records| && records[i].Some?
                                    && Overlaps(start, pages, records[i].value) && records[i].value.End() == r.value
    decreases |records| - from
  {
    if from == |records| then None
    else
      var rest := OverlapEnd(records, start, pages, from + 1);
      if records[from].Some? && Overlaps(start, pages, records[from].value) then
        if rest.Some? && rest.value >= records[from].value.End() then rest else Some(records[from].value.End())
      else rest
  }

  /** No start between a candidate and the end of a record it meets is free. */
  lemma JumpSkipsNothing(records: Records, candidate: nat, pages: nat, index: nat, start: nat)
    requires index < |records| && records[index].Some? && Overlaps(candidate, pages, records[index].value)
    requires candidate <= start < records[index].value.End()
    ensures !RangeFree(records, start, pages)
  {
    assert Overlaps(start, pages, records[index].value);
  }

  /** `next_available_start`: the least start from `preferred` on whose range lies in the region
      and meets no record; none exactly when there is none. */
  method NextAvailableStart(records: Records, preferred: nat, pages: nat) returns (found: Option<nat>)
    requires RecordsOk(records) && MAPPING_BASE <= preferred && 0 < pages
    ensures found.Some? ==> preferred <= found.value && RangeOk(found.value, pages) && RangeFree(records, found.value, pages)
    ensures found.Some? ==> forall start :: preferred <= start < found.value ==> !RangeFree(records, start, pages)
    ensures found.None? ==>
              forall start :: preferred <= start && RangeOk(start, pages) ==> !RangeFree(records, start, pages)
  {
    var candidate := preferred;
    while true
      invariant preferred <= candidate
      invariant forall start :: preferred <= start < candidate ==> !RangeFree(records, start, pages)
      decreases MAPPING_END - candidate
    {
      if !RangeOk(candidate, pages) {
        return None;
      }
      var end := OverlapEnd(records, candidate, pages);
      if end.None? {
        return Some(candidate);
      }
      ghost var index :| 0 <= index < |records| && records[index].Some?
                         && Overlaps(candidate, pages, records[index].value) && records[index].value.End() == end.value;
      forall start | candidate <= start < end.value ensures !RangeFree(records, start, pages) {
        JumpSkipsNothing(records, candidate, pages, index, start);
      }
      candidate := end.value;
    }
  }

  // ---------------------------------------------------------------- removing pages from a record

  function Side(start: nat, pages: nat, source: Source): Option<Record> {
    if pages == 0 then None else Some(Record(start, pages, source))
  }

  /** `apply_record_unmap`: the record at `index` without [lo, hi); a right part next to a left
      one goes to slot `split`. */
  function Trimmed(records: Records, index: nat, lo: nat, hi: nat, split: nat): Records
    requires index < |records| && records[index].Some?
    requires records[index].value.start <= lo && hi <= records[index].value.End()
    requires records[index].value.start < lo && hi < records[index].value.End() ==> split < |records|
  {
    var record := records[index].value;
    var left, right := Side(record.start, lo - record.start, record.source), Side(hi, record.End() - hi, record.source);
    if left.Some? && right.Some? then records[index := left][split := right]
    else records[index := if left.Some? then left else right]
  }

  ghost predicate SplitReady(records: Records, index: nat, lo: nat, hi: nat, split: nat) {
    && index < |records| && records[index].Some?
    && records[index].value.start <= lo < hi <= records[index].value.End()
    && (records[index].value.start < lo && hi < records[index].value.End() ==>
          split < |records| && records[split].None?)
  }

  /** Trimming keeps records disjoint and removes exactly the pages of [lo, hi). */
  lemma TrimmedOk(records: Records, index: nat, lo: nat, hi: nat, split: nat)
    requires RecordsOk(records) && SplitReady(records, index, lo, hi, split)
    ensures RecordsOk(Trimmed(records, index, lo, hi, split))
  {
  }

  lemma TrimmedTracks(records: Records, index: nat, lo: nat, hi: nat, split: nat, page: nat, source: Source)
    requires RecordsOk(records) && SplitReady(records, index, lo, hi, split)
    ensures Tracks(Trimmed(records, index, lo, hi, split), page, source)
       <==> Tracks(records, page, source) && !(lo <= page < hi)
  {
    var after := Trimmed(records, index, lo, hi, split);
    if Tracks(after, page, source) {
      var i :| 0 <= i < |after| && Covers(after[i], page, source);
      if i == index || after[i] != records[i] {
        assert Covers(records[index], page, source);
      } else {
        assert Covers(records[i], page, source);
      }
    }
    if Tracks(records, page, source) && !(lo <= page < hi) {
      var i :| 0 <= i < |records| && Covers(records[i], page, source);
      if i != index {
        assert Covers(after[i], page, source);
      } else if page < lo {
        assert Covers(after[index], page, source);
      } else if records[index].value.start < lo {
        assert Covers(after[split], page, source);
      } else {
        assert Covers(after[index], page, source);
      }
    }
  }

  /** Number of records in use. */
  function Active(records: Records): nat {
    if records == [] then 0 else (if records[0].Some? then 1 else 0) + Active(records[1..])
  }

  lemma {:induction false} ActiveUpdate(records: Records, index: nat, slot: Option<Record>)
    requires index < |records|
    ensures Active(records[index := slot])
         == Active(records) - (if records[index].Some? then 1 else 0) + (if slot.Some? then 1 else 0)
  {
    var after := records[index := slot];
    if index == 0 {
      assert after[1..] == records[1..];
    } else {
      assert after[1..] == records[1..][index - 1 := slot];
      ActiveUpdate(records[1..], index - 1, slot);
    }
  }

  lemma {:induction false} ActiveFull(records: Records)
    ensures Active(records) <= |records|
    ensures Active(records) == |records| <==> forall i :: 0 <= i < |records| ==> records[i].Some?
  {
    if records != [] {
      ActiveFull(records[1..]);
      assert records == [records[0]] + records[1..];
    }
  }

  /** Records left over by trimming: none, one or two. */
  function Remaining(record: Record, lo: nat, hi: nat): nat {
    (if record.start < lo then 1 else 0) + (if hi < record.End() then 1 else 0)
  }

  lemma TrimmedActive(records: Records, index: nat, lo: nat, hi: nat, split: nat)
    requires SplitReady(records, index, lo, hi, split)
    ensures Active(Trimmed(records, index, lo, hi, split)) == Active(records) - 1 + Remaining(records[index].value, lo, hi)
  {
    var record := records[index].value;
    var left, right := Side(record.start, lo - record.start, record.source), Side(hi, record.End() - hi, record.source);
    if left.Some? && right.Some? {
      ActiveUpdate(records, index, left);
      ActiveUpdate(records[index := left], split, right);
    } else {
      ActiveUpdate(records, index, if left.Some? then left else right);
    }
  }

  // ---------------------------------------------------------------- replacing a range

  /** Change in the number of records when [lo, hi) is cut out of those from `from` on. */
  function CutBalance(records: Records, lo: nat, hi: nat, from: nat := 0): int
    requires from <= |records|
    decreases |records| - from
  {
    if from == |records| then 0
    else
      (if records[from].Some? && Meets(lo, hi, records[from].value)
       then Remaining(records[from].value, lo, hi) - 1 else 0)
      + CutBalance(records, lo, hi, from + 1)
  }

  /** `ensure_replace_record_capacity`. */
  predicate ReplaceFits(records: Records, lo: nat, hi: nat) {
    Active(records) + CutBalance(records, lo, hi) < MAX_USER_MAPPINGS
  }

  /** The slots from `from` on whose record starts below `lo`. */
  ghost function StartingBelow(records: Records, lo: nat, from: nat): set<nat> {
    set i | from <= i < |records| && records[i].Some? && records[i].value.start < lo
  }

  /** The slots from `from` on whose record ends above `hi`. */
  ghost function EndingAbove(records: Records, hi: nat, from: nat): set<nat> {
    set i | from <= i < |records| && records[i].Some? && hi < records[i].value.End()
  }

  /** Cutting leaves one record for each that starts below the range and one for each that ends above
      it. */
  lemma {:induction false} CutCounts(records: Records, lo: nat, hi: nat, from: nat)
    requires from <= |records| && lo < hi
    requires forall i :: 0 <= i < |records| && records[i].Some? ==> 0 < records[i].value.pages
    ensures Active(records[from..]) + CutBalance(records, lo, hi, from)
         == |StartingBelow(records, lo, from)| + |EndingAbove(records, hi, from)|
    decreases |records| - from
  {
    if from < |records| {
      CutCounts(records, lo, hi, from + 1);
      assert records[from..][1..] == records[from + 1..];
      FirstBelow(records, lo, from);
      FirstAbove(records, hi, from);
    }
  }

  lemma FirstBelow(records: Records, lo: nat, from: nat)
    requires from < |records|
    ensures |StartingBelow(records, lo, from)|
         == |StartingBelow(records, lo, from + 1)| + if records[from].Some? && records[from].value.start < lo then 1 else 0
  {
    var rest := StartingBelow(records, lo, from + 1);
    assert StartingBelow(records, lo, from)
        == if records[from].Some? && records[from].value.start < lo then rest + {from} else rest;
  }

  lemma FirstAbove(records: Records, hi: nat, from: nat)
    requires from < |records|
    ensures |EndingAbove(records, hi, from)|
         == |EndingAbove(records, hi, from + 1)| + if records[from].Some? && hi < records[from].value.End() then 1 else 0
  {
    var rest := EndingAbove(records, hi, from + 1);
    assert EndingAbove(records, hi, from)
        == if records[from].Some? && hi < records[from].value.End() then rest + {from} else rest;
  }

  /** A replacement fits exactly when a slot stays free once every record is cut. */
  lemma ReplaceFitsExact(records: Records, lo: nat, hi: nat)
    requires RecordsOk(records) && lo < hi
    ensures ReplaceFits(records, lo, hi) <==> |StartingBelow(records, lo, 0)| + |EndingAbove(records, hi, 0)| < 32
  {
    CutCounts(records, lo, hi, 0);
    assert records[0..] == records;
  }

  lemma {:induction false} BalanceUnchanged(a: Records, b: Records, lo: nat, hi: nat, from: nat)
    requires |a| == |b| && from <= |a|
    requires forall i :: from <= i < |a| ==> a[i] == b[i] || (NotIn(a[i], lo, hi) && NotIn(b[i], lo, hi))
    ensures CutBalance(a, lo, hi, from) == CutBalance(b, lo, hi, from)
    decreases |a| - from
  {
    if from < |a| {
      BalanceUnchanged(a, b, lo, hi, from + 1);
    }
  }

  predicate NotIn(slot: Option<Record>, lo: nat, hi: nat) {
    slot.Some? ==> !Meets(lo, hi, slot.value)
  }

  lemma {:induction false} BalanceZero(records: Records, lo: nat, hi: nat, from: nat)
    requires from <= |records|
    requires forall i :: from <= i < |records| ==> NotIn(records[i], lo, hi)
    ensures CutBalance(records, lo, hi, from) == 0
    decreases |records| - from
  {
    if from < |records| {
      BalanceZero(records, lo, hi, from + 1);
    }
  }

  /** Where a record that overlaps [lo, hi) meets it. */
  function MeetLow(record: Record, lo: nat): nat {
    Max(record.start, lo)
  }

  function MeetHigh(record: Record, hi: nat): nat {
    Min(record.End(), hi)
  }

  lemma RemainingMeet(record: Record, lo: nat, hi: nat)
    requires Meets(lo, hi, record) && lo < hi && 0 < record.pages
    ensures record.start <= MeetLow(record, lo) < MeetHigh(record, hi) <= record.End()
    ensures Remaining(record, MeetLow(record, lo), MeetHigh(record, hi)) == Remaining(record, lo, hi)
  {
  }

  /** The preflight leaves an empty slot for a record that must be split: a record with parts on
      both sides of the range is the only one that meets it. */
  lemma SplitSlotExists(records: Records, lo: nat, hi: nat, index: nat)
    requires RecordsOk(records) && lo < hi && index < |records| && records[index].Some?
    requires records[index].value.start < lo && hi < records[index].value.End()
    requires Active(records) + CutBalance(records, lo, hi, index) < MAX_USER_MAPPINGS
    ensures NextEmpty(records).Some?
  {
    forall i | index < i < |records| ensures NotIn(records[i], lo, hi) {
      if records[i].Some? {
        assert Apart(records[index].value.start, records[index].value.pages, records[i].value);
      }
    }
    BalanceZero(records, lo, hi, index + 1);
    ActiveFull(records);
  }

  /** Progress of the replacement at slot `index`: no earlier slot meets [lo, hi), pages outside
      it are as in `before`, and the record balance still fits. */
  ghost predicate Replacing(before: Records, now: Records, lo: nat, hi: nat, index: nat) {
    && RecordsOk(now) && index <= |now|
    && (forall i :: 0 <= i < index ==> NotIn(now[i], lo, hi))
    && (forall page: nat, source :: !(lo <= page < hi) ==> (Tracks(now, page, source) <==> Tracks(before, page, source)))
    && (forall page: nat, source :: Tracks(now, page, source) ==> Tracks(before, page, source))
    && Active(now) + CutBalance(now, lo, hi, index) < MAX_USER_MAPPINGS
  }

  lemma ReplaceSkips(before: Records, now: Records, lo: nat, hi: nat, index: nat)
    requires Replacing(before, now, lo, hi, index) && index < |now| && NotIn(now[index], lo, hi)
    ensures Replacing(before, now, lo, hi, index + 1)
  {
  }

  lemma ReplaceTrims(before: Records, now: Records, lo: nat, hi: nat, index: nat, split: nat)
    requires Replacing(before, now, lo, hi, index) && lo < hi && index < |now| && !NotIn(now[index], lo, hi)
    requires SplitReady(now, index, MeetLow(now[index].value, lo), MeetHigh(now[index].value, hi), split)
    ensures Replacing(before, Trimmed(now, index, MeetLow(now[index].value, lo), MeetHigh(now[index].value, hi), split),
                      lo, hi, index + 1)
  {
    var record := now[index].value;
    var from, to := MeetLow(record, lo), MeetHigh(record, hi);
    var after := Trimmed(now, index, from, to, split);
    TrimmedOk(now, index, from, to, split);
    TrimmedActive(now, index, from, to, split);
    RemainingMeet(record, lo, hi);
    BalanceUnchanged(now, after, lo, hi, index + 1);
    forall page: nat, source ensures Tracks(after, page, source) <==> Tracks(now, page, source) && !(from <= page < to) {
      TrimmedTracks(now, index, from, to, split, page, source);
    }
  }

  /** When every slot has been visited, exactly the pages of [lo, hi) are gone and a slot is free. */
  lemma ReplaceDone(before: Records, now: Records, lo: nat, hi: nat)
    requires Replacing(before, now, lo, hi, |now|) && lo < hi
    ensures RangeFree(now, lo, hi - lo) && NextEmpty(now).Some?
    ensures forall page: nat, source :: Tracks(now, page, source) <==> Tracks(before, page, source) && !(lo <= page < hi)
  {
    ActiveFull(now);
    forall i | 0 <= i < |now| && now[i].Some? ensures !Meets(lo, hi, now[i].value) {
      assert NotIn(now[i], lo, hi);
    }
    forall page: nat, source | lo <= page < hi ensures !Tracks(now, page, source) {
      FreeUntracked(now, lo, hi - lo, page);
    }
  }
}
