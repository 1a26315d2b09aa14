/** Sorted, fully merged tables: the unique such encoding of what a table records. */
module CanonicalRanges {
  import opened Machine
  import opened Ranges

  ghost predicate Ordered<T>(table: seq<Range<T>>) {
    forall i, j :: 0 <= i < j < |table| ==> table[i].End() <= table[j].start
  }

  ghost predicate NoJoins<T>(table: seq<Range<T>>) {
    forall i :: 0 <= i < |table| - 1 ==> !Joins(table[i], table[i + 1])
  }

  ghost predicate Canonical<T>(table: seq<Range<T>>) {
    AllValid(table) && Ordered(table) && NoJoins(table)
  }

  // ---------------------------------------------------------------- relations kept by merging

  ghost predicate Pairwise<T(!new)>(rel: (Range<T>, Range<T>) -> bool, table: seq<Range<T>>) {
    forall i, j :: 0 <= i < j < |table| ==> rel(table[i], table[j])
  }

  /** Joining two neighbours keeps their common relations to ranges before and after them. */
  ghost predicate JoinClosed<T(!new)>(rel: (Range<T>, Range<T>) -> bool) {
    forall a: Range<T>, b: Range<T>, x: Range<T> :: a.Valid() && b.Valid() && Joins(a, b) ==>
      (rel(x, a) && rel(x, b) ==> rel(x, Join(a, b))) &&
      (rel(a, x) && rel(b, x) ==> rel(Join(a, b), x))
  }

  ghost predicate Precedes<T(!new)>(rel: (Range<T>, Range<T>) -> bool, x: Range<T>, table: seq<Range<T>>) {
    forall i :: 0 <= i < |table| ==> rel(x, table[i])
  }

  lemma {:induction false} CoalesceFromPrecedes<T(!new)>(
      rel: (Range<T>, Range<T>) -> bool, x: Range<T>, current: Range<T>, rest: seq<Range<T>>)
    requires JoinClosed(rel) && current.Valid() && AllValid(rest)
    requires rel(x, current) && Precedes(rel, x, rest)
    ensures Precedes(rel, x, CoalesceFrom(current, rest))
    decreases |rest|
  {
    if rest != [] {
      if Joins(current, rest[0]) {
        CoalesceFromPrecedes(rel, x, Join(current, rest[0]), rest[1..]);
      } else {
        CoalesceFromPrecedes(rel, x, rest[0], rest[1..]);
      }
    }
  }

  lemma {:induction false} CoalesceFromPairwise<T(!new)>(
      rel: (Range<T>, Range<T>) -> bool, current: Range<T>, rest: seq<Range<T>>)
    requires JoinClosed(rel) && current.Valid() && AllValid(rest)
    requires Precedes(rel, current, rest) && Pairwise(rel, rest)
    ensures Pairwise(rel, CoalesceFrom(current, rest))
    decreases |rest|
  {
    if rest != [] {
      assert Precedes(rel, rest[0], rest[1..]);
      if Joins(current, rest[0]) {
        CoalesceFromPairwise(rel, Join(current, rest[0]), rest[1..]);
      } else {
        CoalesceFromPairwise(rel, rest[0], rest[1..]);
        CoalesceFromPrecedes(rel, current, rest[0], rest[1..]);
      }
    }
  }

  /** Merging keeps any relation between earlier and later entries that joining keeps. */
  lemma CoalescePairwise<T(!new)>(rel: (Range<T>, Range<T>) -> bool, table: seq<Range<T>>)
    requires JoinClosed(rel) && AllValid(table) && Pairwise(rel, table)
    ensures Pairwise(rel, Coalesce(table))
  {
    if table != [] {
      assert Precedes(rel, table[0], table[1..]);
      CoalesceFromPairwise(rel, table[0], table[1..]);
    }
  }

  lemma CoalesceOrdered<T(!new)>(table: seq<Range<T>>)
    requires AllValid(table) && Ordered(table)
    ensures Ordered(Coalesce(table))
  {
    var rel := (a: Range<T>, b: Range<T>) => a.End() <= b.start;
    CoalescePairwise(rel, table);
    forall i, j | 0 <= i < j < |Coalesce(table)|
      ensures Coalesce(table)[i].End() <= Coalesce(table)[j].start
    {
      assert rel(Coalesce(table)[i], Coalesce(table)[j]);
    }
  }

  lemma {:induction false} CoalesceFromNoJoins<T>(current: Range<T>, rest: seq<Range<T>>)
    ensures CoalesceFrom(current, rest)[0].start == current.start
    ensures CoalesceFrom(current, rest)[0].tag == current.tag
    ensures NoJoins(CoalesceFrom(current, rest))
    decreases |rest|
  {
    if rest != [] {
      var next := if Joins(current, rest[0]) then Join(current, rest[0]) else rest[0];
      CoalesceFromNoJoins(next, rest[1..]);
    }
  }

  /** Merging a sorted table yields its canonical form. */
  lemma CoalesceCanonical<T(!new)>(table: seq<Range<T>>)
    requires AllValid(table) && Ordered(table)
    ensures Canonical(Coalesce(table))
  {
    CoalesceMeaning(table);
    CoalesceOrdered(table);
    if table != [] {
      CoalesceFromNoJoins(table[0], table[1..]);
    }
  }

  lemma {:induction false} CoalesceFromFixed<T>(current: Range<T>, rest: seq<Range<T>>)
    requires NoJoins([current] + rest)
    ensures CoalesceFrom(current, rest) == [current] + rest
    decreases |rest|
  {
    if rest != [] {
      assert ([current] + rest)[0] == current && ([current] + rest)[1] == rest[0];
      assert !Joins(current, rest[0]);
      assert [rest[0]] + rest[1..] == ([current] + rest)[1..];
      CoalesceFromFixed(rest[0], rest[1..]);
    }
  }

  /** A table with nothing to merge is left as it is. */
  lemma CoalesceFixed<T>(table: seq<Range<T>>)
    requires NoJoins(table)
    ensures Coalesce(table) == table
  {
    if table != [] {
      assert [table[0]] + table[1..] == table;
      CoalesceFromFixed(table[0], table[1..]);
    }
  }

  // ---------------------------------------------------------------- canonical tables

  lemma {:induction false} OrderedTailFree<T>(table: seq<Range<T>>, page: nat)
    requires Ordered(table)
    requires forall i :: 0 <= i < |table| ==> page < table[i].start
    ensures At(table, page) == multiset{}
  {
    if table != [] {
      OrderedTailFree(table[1..], page);
    }
  }

  lemma {:induction false} OrderedCount<T>(table: seq<Range<T>>, page: nat)
    requires Ordered(table)
    ensures |At(table, page)| <= 1
  {
    if table != [] {
      if table[0].Covers(page) {
        OrderedTailFree(table[1..], page);
      } else {
        OrderedCount(table[1..], page);
      }
    }
  }

  lemma OrderedExclusive<T(!new)>(table: seq<Range<T>>)
    requires Ordered(table)
    ensures Exclusive(table)
  {
    forall page: nat ensures |At(table, page)| <= 1 {
      OrderedCount(table, page);
    }
  }

  ghost predicate SameRecord<T(!new)>(s: seq<Range<T>>, t: seq<Range<T>>) {
    forall page :: At(s, page) == At(t, page)
  }

  lemma HeadStart<T(!new)>(s: seq<Range<T>>, t: seq<Range<T>>)
    requires Canonical(s) && Canonical(t) && SameRecord(s, t) && s != []
    ensures t != [] && t[0].start <= s[0].start
  {
    AtCovered(s, 0, s[0].start);
    var j := AtWitness(t, s[0].start, s[0].tag);
  }

  lemma NextEntry<T>(table: seq<Range<T>>, index: nat, k: nat)
    requires AllValid(table) && Ordered(table) && index < |table| && k < |table|
    requires table[k].Covers(table[index].End())
    ensures k == index + 1 && table[k].start == table[index].End()
  {
    if k > index + 1 {
      OrderedAt(table, index, index + 1);
      assert false;
    }
  }

  lemma OrderedAt<T>(table: seq<Range<T>>, i: nat, j: nat)
    requires AllValid(table) && Ordered(table) && i < j < |table|
    ensures table[i].start < table[i].End() <= table[j].start < table[j].End()
  {
  }

  /** Where an entry of a canonical table ends, its tag ends. */
  lemma EndsRun<T(!new)>(table: seq<Range<T>>, index: nat)
    requires Canonical(table) && index < |table|
    ensures table[index].tag !in At(table, table[index].End())
  {
    var r := table[index];
    if r.tag in At(table, r.End()) {
      var k := AtWitness(table, r.End(), r.tag);
      NextEntry(table, index, k);
      assert false;
    }
  }

  lemma HeadPages<T(!new)>(s: seq<Range<T>>, t: seq<Range<T>>)
    requires Canonical(s) && Canonical(t) && SameRecord(s, t) && s != [] && t != []
    requires s[0].start == t[0].start && s[0].tag == t[0].tag
    ensures s[0].pages >= t[0].pages
  {
    if s[0].pages < t[0].pages {
      EndsRun(s, 0);
      AtCovered(t, 0, s[0].End());
    }
  }

  lemma HeadSame<T(!new)>(s: seq<Range<T>>, t: seq<Range<T>>)
    requires Canonical(s) && Canonical(t) && SameRecord(s, t) && s != []
    ensures t != [] && s[0] == t[0]
  {
    HeadStart(s, t);
    HeadStart(t, s);
    OrderedExclusive(s);
    OrderedExclusive(t);
    AtExclusive(s, 0, s[0].start);
    AtExclusive(t, 0, s[0].start);
    assert s[0].tag in multiset{t[0].tag};
    HeadPages(s, t);
    HeadPages(t, s);
  }

  lemma MultisetCancel<T>(x: multiset<T>, a: multiset<T>, b: multiset<T>)
    requires x + a == x + b
    ensures a == b
  {
    assert a == (x + a) - x;
    assert b == (x + b) - x;
  }

  lemma AtTail<T>(table: seq<Range<T>>, page: nat)
    requires table != []
    ensures At(table, page) == At([table[0]], page) + At(table[1..], page)
  {
    AtSingle(table[0], page);
  }

  /** A canonical table is determined by what it records. */
  lemma {:induction false} CanonicalUnique<T(!new)>(s: seq<Range<T>>, t: seq<Range<T>>)
    requires Canonical(s) && Canonical(t) && SameRecord(s, t)
    ensures s == t
  {
    if s == [] {
      if t != [] {
        HeadSame(t, s);
      }
    } else {
      HeadSame(s, t);
      forall page: nat ensures At(s[1..], page) == At(t[1..], page) {
        AtTail(s, page);
        AtTail(t, page);
        assert At(s, page) == At(t, page);
        MultisetCancel(At([s[0]], page), At(s[1..], page), At(t[1..], page));
      }
      CanonicalUnique(s[1..], t[1..]);
      assert s == [s[0]] + s[1..] && t == [t[0]] + t[1..];
    }
  }

  /** A run of pages with one tag lies inside a single entry of a canonical table. */
  lemma {:induction false} RunInsideEntry<T(!new)>(table: seq<Range<T>>, start: nat, pages: nat, tag: T)
      returns (index: nat)
    requires Canonical(table) && 0 < pages
    requires forall page :: start <= page < start + pages ==> tag in At(table, page)
    ensures index < |table| && table[index].tag == tag
    ensures table[index].start <= start && start + pages <= table[index].End()
    decreases pages
  {
    if pages == 1 {
      index := AtWitness(table, start, tag);
    } else {
      index := RunInsideEntry(table, start, pages - 1, tag);
      if start + pages > table[index].End() {
        EndsRun(table, index);
        assert false;
      }
    }
  }
}
