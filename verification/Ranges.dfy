/** Tables of tagged page ranges, the common shape of the physical frame table and of the
    kernel virtual free list. A table stands for the tags recorded at each page. */
module Ranges {
  import opened Machine

  datatype Range<T> = Range(start: nat, pages: nat, tag: T) {
    function End(): nat {
      start + pages
    }

    predicate Covers(page: nat) {
      start <= page < start + pages
    }

    predicate Valid() {
      0 < pages && start + pages < PAGE_NUMBER_LIMIT
    }
  }

  ghost predicate AllValid<T>(table: seq<Range<T>>) {
    forall i :: 0 <= i < |table| ==> table[i].Valid()
  }

  /** Every tag recorded at `page`, with multiplicity: the meaning of a table. */
  ghost function At<T>(table: seq<Range<T>>, page: nat): multiset<T> {
    if table == [] then multiset{}
    else (if table[0].Covers(page) then multiset{table[0].tag} else multiset{}) + At(table[1..], page)
  }

  /** No page is recorded twice. */
  ghost predicate Exclusive<T(!new)>(table: seq<Range<T>>) {
    forall page :: |At(table, page)| <= 1
  }

  predicate Joins<T(==)>(a: Range<T>, b: Range<T>) {
    a.tag == b.tag && CheckedEnd(a.start, a.pages) == Some(b.start)
  }

  function Join<T>(a: Range<T>, b: Range<T>): Range<T> {
    a.(pages := SaturatingAdd(a.pages, b.pages))
  }

  /** One left-to-right merging pass with `current` as the open range. */
  function CoalesceFrom<T(==)>(current: Range<T>, rest: seq<Range<T>>): (r: seq<Range<T>>)
    ensures 1 <= |r| <= 1 + |rest|
    decreases |rest|
  {
    if rest == [] then [current]
    else if Joins(current, rest[0]) then CoalesceFrom(Join(current, rest[0]), rest[1..])
    else [current] + CoalesceFrom(rest[0], rest[1..])
  }

  function Coalesce<T(==)>(table: seq<Range<T>>): (r: seq<Range<T>>)
    ensures |r| <= |table|
  {
    if table == [] then [] else CoalesceFrom(table[0], table[1..])
  }

  function InsertedAt<T>(table: seq<T>, index: nat, item: T): seq<T>
    requires index <= |table|
  {
    table[..index] + [item] + table[index..]
  }

  function RemovedAt<T>(table: seq<T>, index: nat): seq<T>
    requires index < |table|
  {
    table[..index] + table[index + 1..]
  }

  // ---------------------------------------------------------------- meaning

  lemma {:induction false} AtConcat<T>(a: seq<Range<T>>, b: seq<Range<T>>, page: nat)
    ensures At(a + b, page) == At(a, page) + At(b, page)
  {
    if a == [] {
      assert a + b == b;
    } else {
      assert (a + b)[1..] == a[1..] + b;
      AtConcat(a[1..], b, page);
    }
  }

  lemma AtSingle<T>(r: Range<T>, page: nat)
    ensures At([r], page) == if r.Covers(page) then multiset{r.tag} else multiset{}
  {
    assert [r][1..] == [];
  }

  /** Replacing the entry at `index` by `pieces` changes the meaning only through them. */
  lemma AtSpliced<T>(table: seq<Range<T>>, index: nat, pieces: seq<Range<T>>, page: nat)
    requires index < |table|
    ensures At(table, page) == At(table[..index], page) + At([table[index]], page) + At(table[index + 1..], page)
    ensures At(table[..index] + pieces + table[index + 1..], page)
         == At(table[..index], page) + At(pieces, page) + At(table[index + 1..], page)
  {
    assert table == table[..index] + [table[index]] + table[index + 1..];
    AtConcat(table[..index] + [table[index]], table[index + 1..], page);
    AtConcat(table[..index], [table[index]], page);
    AtConcat(table[..index] + pieces, table[index + 1..], page);
    AtConcat(table[..index], pieces, page);
  }

  lemma AtInserted<T>(table: seq<Range<T>>, index: nat, r: Range<T>, page: nat)
    requires index <= |table|
    ensures At(InsertedAt(table, index, r), page) == At(table, page) + At([r], page)
  {
    assert table == table[..index] + table[index..];
    AtConcat(table[..index], table[index..], page);
    AtConcat(table[..index] + [r], table[index..], page);
    AtConcat(table[..index], [r], page);
  }

  /** A recorded page is covered by some entry, and every covering entry records its tag. */
  lemma {:induction false} AtWitness<T>(table: seq<Range<T>>, page: nat, tag: T) returns (index: nat)
    requires tag in At(table, page)
    ensures index < |table| && table[index].Covers(page) && table[index].tag == tag
  {
    if table[0].Covers(page) && table[0].tag == tag {
      index := 0;
    } else {
      var rest := AtWitness(table[1..], page, tag);
      index := rest + 1;
    }
  }

  lemma AtCovered<T>(table: seq<Range<T>>, index: nat, page: nat)
    requires index < |table| && table[index].Covers(page)
    ensures table[index].tag in At(table, page)
  {
    AtSpliced(table, index, [], page);
    AtSingle(table[index], page);
  }

  /** In an exclusive table a covering entry is the only record of the page. */
  lemma AtExclusive<T(!new)>(table: seq<Range<T>>, index: nat, page: nat)
    requires Exclusive(table)
    requires index < |table| && table[index].Covers(page)
    ensures At(table, page) == multiset{table[index].tag}
  {
    AtSpliced(table, index, [], page);
    AtSingle(table[index], page);
    var rest := At(table[..index], page) + At(table[index + 1..], page);
    assert At(table, page) == multiset{table[index].tag} + rest;
    assert |rest| == 0;
  }

  lemma AtCoveredTwice<T>(table: seq<Range<T>>, i: nat, j: nat, page: nat)
    requires i < j < |table| && table[i].Covers(page) && table[j].Covers(page)
    ensures |At(table, page)| >= 2
  {
    AtSpliced(table, i, [], page);
    AtSingle(table[i], page);
    AtCovered(table[i + 1..], j - i - 1, page);
  }

  /** In an exclusive table only one entry covers a page. */
  lemma OneCovers<T(!new)>(table: seq<Range<T>>, i: nat, j: nat, page: nat)
    requires Exclusive(table) && i < |table| && j < |table| && table[i].Covers(page) && table[j].Covers(page)
    ensures i == j
  {
    if i < j {
      AtCoveredTwice(table, i, j, page);
    } else if j < i {
      AtCoveredTwice(table, j, i, page);
    }
  }

  // ---------------------------------------------------------------- merging

  lemma JoinAt<T>(a: Range<T>, b: Range<T>, page: nat)
    requires a.Valid() && b.Valid() && Joins(a, b)
    ensures Join(a, b).Valid() && Join(a, b).End() == b.End()
    ensures At([Join(a, b)], page) == At([a], page) + At([b], page)
  {
    AtSingle(a, page);
    AtSingle(b, page);
    AtSingle(Join(a, b), page);
  }

  lemma AtCons<T>(r: Range<T>, rest: seq<Range<T>>, page: nat)
    ensures At([r] + rest, page) == At([r], page) + At(rest, page)
  {
    AtConcat([r], rest, page);
  }

  lemma {:induction false} CoalesceFromValid<T>(current: Range<T>, rest: seq<Range<T>>)
    requires current.Valid() && AllValid(rest)
    ensures AllValid(CoalesceFrom(current, rest))
    decreases |rest|
  {
    if rest != [] {
      var next := if Joins(current, rest[0]) then Join(current, rest[0]) else rest[0];
      CoalesceFromValid(next, rest[1..]);
    }
  }

  /** Merging changes the record of no page. */
  lemma {:induction false} CoalesceFromMeaning<T>(current: Range<T>, rest: seq<Range<T>>, page: nat)
    requires current.Valid() && AllValid(rest)
    ensures At(CoalesceFrom(current, rest), page) == At([current], page) + At(rest, page)
    decreases |rest|
  {
    if rest == [] {
    } else if Joins(current, rest[0]) {
      calc {
        At(CoalesceFrom(current, rest), page);
        At(CoalesceFrom(Join(current, rest[0]), rest[1..]), page);
        { CoalesceFromMeaning(Join(current, rest[0]), rest[1..], page); }
        At([Join(current, rest[0])], page) + At(rest[1..], page);
        { JoinAt(current, rest[0], page); }
        At([current], page) + At([rest[0]], page) + At(rest[1..], page);
      }
      assert At(rest, page) == At([rest[0]], page) + At(rest[1..], page) by {
        AtSingle(rest[0], page);
      }
    } else {
      calc {
        At(CoalesceFrom(current, rest), page);
        At([current] + CoalesceFrom(rest[0], rest[1..]), page);
        { AtConcat([current], CoalesceFrom(rest[0], rest[1..]), page); }
        At([current], page) + At(CoalesceFrom(rest[0], rest[1..]), page);
        { CoalesceFromMeaning(rest[0], rest[1..], page); }
        At([current], page) + (At([rest[0]], page) + At(rest[1..], page));
      }
      assert At(rest, page) == At([rest[0]], page) + At(rest[1..], page) by {
        AtSingle(rest[0], page);
      }
    }
  }

  lemma CoalesceMeaning<T>(table: seq<Range<T>>)
    requires AllValid(table)
    ensures AllValid(Coalesce(table))
    ensures forall page :: At(Coalesce(table), page) == At(table, page)
  {
    if table != [] {
      assert table == [table[0]] + table[1..];
      CoalesceFromValid(table[0], table[1..]);
      forall page: nat
        ensures At(Coalesce(table), page) == At(table, page)
      {
        AtCons(table[0], table[1..], page);
        CoalesceFromMeaning(table[0], table[1..], page);
      }
    }
  }
}
