/** Cutting branches off a page tree: the effect of the reclaim walk. */
module PageTreeCut {
  import opened Machine
  import opened PageTree

  predicate Between(x: nat, lo: nat, hi: nat) {
    lo <= x < hi
  }

  /** The table at `key` lies on or below a level-`level` table numbered in [lo, hi). */
  predicate InCut(level: nat, lo: nat, hi: nat, key: Key) {
    key.level <= level && Between(Up(key.prefix, level - key.level), lo, hi)
  }

  /** The tree without the branches at level `level` numbered in [lo, hi). */
  function Cut(tree: Tree, level: nat, lo: nat, hi: nat): Tree {
    Tree(map key | key in tree.tables && !InCut(level, lo, hi, key) :: tree.tables[key],
         map page | page in tree.pages && !Between(Up(page, level), lo, hi) :: tree.pages[page])
  }

  lemma CutNothing(tree: Tree, level: nat, lo: nat)
    ensures Cut(tree, level, lo, lo) == tree
  {
  }

  lemma CutJoins(tree: Tree, level: nat, lo: nat, mid: nat, hi: nat)
    requires lo <= mid <= hi
    ensures Cut(Cut(tree, level, lo, mid), level, mid, hi) == Cut(tree, level, lo, hi)
  {
  }

  lemma CutKeeps(tree: Tree, level: nat, lo: nat, hi: nat, key: Key)
    requires key in tree.tables && level < key.level
    ensures key in Cut(tree, level, lo, hi).tables && Cut(tree, level, lo, hi).tables[key] == tree.tables[key]
  {
  }

  /** Every table below level `level` hangs from a table at that level. */
  lemma {:induction false} TableAncestor(tree: Tree, key: Key, level: nat)
    requires Closed(tree) && key in tree.tables && key.level <= level <= 4
    ensures Key(level, Up(key.prefix, level - key.level)) in tree.tables
    decreases level
  {
    if key.level < level {
      TableAncestor(tree, key, level - 1);
      assert HasParent(tree, Key(level - 1, Up(key.prefix, level - 1 - key.level)));
    }
  }

  lemma {:induction false} PageAncestor(tree: Tree, page: nat, level: nat)
    requires Closed(tree) && page in tree.pages && 1 <= level <= 4
    ensures Key(level, Up(page, level)) in tree.tables
  {
    if level == 1 {
      assert Up(page, 1) == page / ENTRIES;
    } else {
      PageAncestor(tree, page, level - 1);
      assert HasParent(tree, Key(level - 1, Up(page, level - 1)));
    }
  }

  /** There is nothing to cut below a table that is absent. */
  lemma CutMissing(tree: Tree, level: nat, number: nat)
    requires Closed(tree) && 1 <= level <= 3 && Key(level, number) !in tree.tables
    ensures Cut(tree, level, number, number + 1) == tree
  {
    forall key | key in tree.tables ensures !InCut(level, number, number + 1, key) {
      if key.level <= level {
        TableAncestor(tree, key, level);
      }
    }
    forall page | page in tree.pages ensures !Between(Up(page, level), number, number + 1) {
      PageAncestor(tree, page, level);
    }
  }

  lemma UpStep(x: nat, levels: nat, number: nat)
    ensures Between(Up(x, levels + 1), number, number + 1)
       <==> Between(Up(x, levels), ENTRIES * number, ENTRIES * number + ENTRIES)
  {
  }

  lemma CutStepKey(level: nat, number: nat, key: Key)
    requires 1 <= level
    ensures InCut(level, number, number + 1, key)
       <==> key == Key(level, number) || InCut(level - 1, ENTRIES * number, ENTRIES * number + ENTRIES, key)
  {
    if key.level < level {
      UpStep(key.prefix, level - 1 - key.level, number);
    } else if key.level == level {
      assert Up(key.prefix, 0) == key.prefix;
    }
  }

  /** Cutting everything below a table and then the table itself cuts its branch. */
  lemma CutStep(tree: Tree, level: nat, number: nat)
    requires 1 <= level
    ensures WithoutTable(Cut(tree, level - 1, ENTRIES * number, ENTRIES * number + ENTRIES), Key(level, number))
         == Cut(tree, level, number, number + 1)
  {
    var inner := Cut(tree, level - 1, ENTRIES * number, ENTRIES * number + ENTRIES);
    var outer := Cut(tree, level, number, number + 1);
    forall key | key in tree.tables ensures key in outer.tables <==> key in WithoutTable(inner, Key(level, number)).tables {
      CutStepKey(level, number, key);
    }
    forall page | page in tree.pages ensures page in outer.pages <==> page in inner.pages {
      UpStep(page, level - 1, number);
    }
    assert WithoutTable(inner, Key(level, number)).tables == outer.tables;
    assert inner.pages == outer.pages;
  }

  lemma CutChildless(tree: Tree, level: nat, number: nat)
    requires Closed(tree) && 1 <= level <= 3
    ensures Childless(Cut(tree, level - 1, ENTRIES * number, ENTRIES * number + ENTRIES), Key(level, number))
  {
    var inner := Cut(tree, level - 1, ENTRIES * number, ENTRIES * number + ENTRIES);
    forall k | k in inner.tables && k.level < 4 ensures Parent(k) != Key(level, number) {
      if k.level == level - 1 {
        assert Up(k.prefix, 0) == k.prefix;
      }
    }
    if level == 1 {
      forall page | page in inner.pages ensures page / ENTRIES != number {
        assert Up(page, 0) == page;
      }
    }
  }

  /** At level 0 a cut removes one page. */
  lemma CutPage(tree: Tree, page: nat)
    requires Closed(tree)
    ensures Cut(tree, 0, page, page + 1) == WithoutPage(tree, page)
  {
    forall key | key in tree.tables ensures !InCut(0, page, page + 1, key) {
      assert HasParent(tree, key);
    }
    forall p | p in tree.pages ensures Up(p, 0) == p {
    }
  }

  /** Cutting the whole window leaves the root alone. */
  lemma CutWindow(tree: Tree)
    requires Closed(tree)
    ensures Cut(tree, 3, WINDOW_START, WINDOW_END) == Tree(map[ROOT_KEY := tree.tables[ROOT_KEY]], map[])
  {
    forall key | key in tree.tables && key != ROOT_KEY ensures InCut(3, WINDOW_START, WINDOW_END, key) {
      assert HasParent(tree, key);
      TableAncestor(tree, key, 3);
      assert HasParent(tree, Key(3, Up(key.prefix, 3 - key.level)));
    }
    forall page | page in tree.pages ensures Between(Up(page, 3), WINDOW_START, WINDOW_END) {
      PageAncestor(tree, page, 3);
      assert HasParent(tree, Key(3, Up(page, 3)));
    }
    assert Cut(tree, 3, WINDOW_START, WINDOW_END).tables == map[ROOT_KEY := tree.tables[ROOT_KEY]];
    assert Cut(tree, 3, WINDOW_START, WINDOW_END).pages == map[];
  }

}
