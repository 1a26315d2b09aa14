/** The order of path strings, character by character, in which an ordered map yields its keys. */
module PathOrder {

  predicate Below(a: string, b: string)
    decreases |a|
  {
    b != "" && (a == "" || a[0] < b[0] || (a[0] == b[0] && Below(a[1..], b[1..])))
  }

  lemma {:induction false} BelowTotal(a: string, b: string)
    ensures a == b || Below(a, b) || Below(b, a)
    decreases |a|
  {
    if a != "" && b != "" && a[0] == b[0] {
      BelowTotal(a[1..], b[1..]);
      assert a == [a[0]] + a[1..] && b == [b[0]] + b[1..];
    }
  }

  lemma {:induction false} BelowStrict(a: string, b: string)
    requires Below(a, b)
    ensures a != b && !Below(b, a)
    decreases |a|
  {
    if a != "" && a[0] == b[0] {
      BelowStrict(a[1..], b[1..]);
    }
  }

  lemma {:induction false} BelowTransitive(a: string, b: string, c: string)
    requires Below(a, b) && Below(b, c)
    ensures Below(a, c)
    decreases |a|
  {
    if a != "" && a[0] == b[0] == c[0] {
      BelowTransitive(a[1..], b[1..], c[1..]);
    }
  }

  /** The strings agree on `n` characters, and then `a` ends or has the smaller one. */
  predicate DiffersAt(a: string, b: string, n: nat) {
    n <= |a| && n < |b| && a[..n] == b[..n] && (n < |a| ==> a[n] < b[n])
  }

  /** The order is decided where two strings first differ. */
  lemma {:induction false} BelowExact(a: string, b: string)
    ensures Below(a, b) <==> exists n: nat :: DiffersAt(a, b, n)
    decreases |a|
  {
    if b != "" && (a == "" || a[0] < b[0]) {
      assert DiffersAt(a, b, 0);
    }
    if a != "" && b != "" && a[0] == b[0] {
      BelowExact(a[1..], b[1..]);
      if Below(a, b) {
        var n: nat :| DiffersAt(a[1..], b[1..], n);
        assert a[..n + 1] == [a[0]] + a[1..][..n] && b[..n + 1] == [b[0]] + b[1..][..n];
        assert DiffersAt(a, b, n + 1);
      }
      if n: nat :| DiffersAt(a, b, n) {
        assert n > 0 && a[1..][..n - 1] == a[..n][1..] && b[1..][..n - 1] == b[..n][1..];
        assert DiffersAt(a[1..], b[1..], n - 1);
      }
    }
    if a != "" && b != "" && a[0] > b[0] {
      forall n: nat ensures !DiffersAt(a, b, n) {
        assert 0 < n <= |a| && n <= |b| ==> a[..n][0] == a[0] && b[..n][0] == b[0];
      }
    }
  }

  /** A common prefix does not matter. */
  lemma {:induction false} BelowAfterPrefix(prefix: string, a: string, b: string)
    ensures Below(prefix + a, prefix + b) <==> Below(a, b)
    decreases |prefix|
  {
    if prefix == "" {
      assert prefix + a == a && prefix + b == b;
    } else {
      assert (prefix + a)[1..] == prefix[1..] + a && (prefix + b)[1..] == prefix[1..] + b;
      BelowAfterPrefix(prefix[1..], a, b);
    }
  }

  /** A path comes before its extensions. */
  lemma BelowExtension(path: string, more: string)
    requires more != ""
    ensures Below(path, path + more)
  {
    BelowAfterPrefix(path, "", more);
    assert path + "" == path;
  }

  predicate Least(path: string, paths: set<string>) {
    path in paths && forall other :: other in paths && other != path ==> Below(path, other)
  }

  lemma {:induction false} LeastExists(paths: set<string>) returns (least: string)
    requires paths != {}
    ensures Least(least, paths)
    decreases |paths|
  {
    var some :| some in paths;
    var rest := paths - {some};
    if rest == {} {
      least := some;
      assert paths == {some};
    } else {
      least := LeastExists(rest);
      BelowTotal(some, least);
      if Below(some, least) {
        forall other | other in paths && other != some ensures Below(some, other) {
          if other != least {
            BelowTransitive(some, least, other);
          }
        }
        least := some;
      }
    }
  }
}
