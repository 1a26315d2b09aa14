/** The in-place array steps of the range tables: shift in, shift out, and merge. */
module RangeArrays {
  import opened Machine
  import opened Ranges

  lemma InsertedByIndex<T>(before: seq<T>, after: seq<T>, index: nat, item: T)
    requires index <= |before| && |after| == |before| + 1
    requires forall k :: 0 <= k < index ==> after[k] == before[k]
    requires after[index] == item
    requires forall k :: index < k < |after| ==> after[k] == before[k - 1]
    ensures after == InsertedAt(before, index, item)
  {
  }

  method ShiftIn<T>(a: array<T>, count: nat, index: nat, item: T)
    requires index <= count < a.Length
    modifies a
    ensures a[..count + 1] == InsertedAt(old(a[..count]), index, item)
  {
    ghost var before := a[..count];
    var move := count;
    while index < move
      invariant index <= move <= count
      invariant forall k :: 0 <= k < move ==> a[k] == before[k]
      invariant forall k :: move < k <= count ==> a[k] == before[k - 1]
    {
      a[move] := a[move - 1];
      move := move - 1;
    }
    a[index] := item;
    InsertedByIndex(before, a[..count + 1], index, item);
  }

  method ShiftOut<T>(a: array<T>, count: nat, index: nat)
    requires index < count <= a.Length
    modifies a
    ensures a[..count - 1] == RemovedAt(old(a[..count]), index)
  {
    ghost var before := a[..count];
    for move := index to count - 1
      invariant forall k :: 0 <= k < index ==> a[k] == before[k]
      invariant forall k :: index <= k < move ==> a[k] == before[k + 1]
      invariant forall k :: move <= k < count ==> a[k] == before[k]
    {
      a[move] := a[move + 1];
    }
  }

  lemma CoalesceStep<T>(current: Range<T>, rest: seq<Range<T>>, read: nat)
    requires read < |rest|
    ensures CoalesceFrom(current, rest[read..]) ==
            if Joins(current, rest[read]) then CoalesceFrom(Join(current, rest[read]), rest[read + 1..])
            else [current] + CoalesceFrom(rest[read], rest[read + 1..])
  {
    assert rest[read..][1..] == rest[read + 1..];
  }

  method MergeAdjacent<T(==)>(a: array<Range<T>>, count: nat) returns (merged: nat)
    requires count <= a.Length
    modifies a
    ensures merged <= count
    ensures a[..merged] == Coalesce(old(a[..count]))
  {
    if count < 2 {
      merged := count;
      if count == 1 {
        assert a[..1] == [a[0]];
      }
      return;
    }
    ghost var before, kept := a[..count], [];
    var write := 0;
    for read := 1 to count
      invariant 0 <= write < read
      invariant forall k :: read <= k < count ==> a[k] == before[k]
      invariant |kept| == write && forall k :: 0 <= k < write ==> a[k] == kept[k]
      invariant kept + CoalesceFrom(a[write], before[read..]) == Coalesce(before)
    {
      var current, next := a[write], a[read];
      CoalesceStep(current, before, read);
      if Joins(current, next) {
        a[write] := Join(current, next);
      } else {
        write := write + 1;
        a[write] := next;
        AppendAssociates(kept, [current], CoalesceFrom(next, before[read + 1..]));
        kept := kept + [current];
      }
    }
    assert before[count..] == [];
    merged := write + 1;
    assert a[..merged] == kept + [a[write]];
  }
}
