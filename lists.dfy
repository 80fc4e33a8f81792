/**
 * The list and column operations the lookup is built from: pandas' boolean-mask
 * selection, `Series.unique()` and Python's `sorted` on strings.
 */
module Lists {
  import opened StrOrder

  predicate NoDuplicates<T(==,!new)>(s: seq<T>) {
    forall i, j :: 0 <= i < j < |s| ==> s[i] != s[j]
  }

  /** `r` is obtained from `s` by deleting elements: same relative order, nothing added or altered. */
  predicate IsSubsequence<T(==,!new)>(r: seq<T>, s: seq<T>)
    decreases |s|
  {
    if r == [] then true
    else if s == [] then false
    else (r[0] == s[0] && IsSubsequence(r[1..], s[1..])) || IsSubsequence(r, s[1..])
  }

  lemma {:induction false} SubsequenceReflexive<T(!new)>(s: seq<T>)
    ensures IsSubsequence(s, s)
    decreases |s|
  {
    if s != [] {
      SubsequenceReflexive(s[1..]);
    }
  }

  /** The positions of `s` whose element satisfies `p`: the `True` entries of the mask. */
  function Satisfying<T>(s: seq<T>, p: T -> bool): set<int> {
    set i | 0 <= i < |s| && p(s[i])
  }

  /** `df[mask]`: the elements of `s` that satisfy `p`, in their original order. */
  function Filter<T(==,!new)>(s: seq<T>, p: T -> bool): (r: seq<T>)
    ensures forall x :: x in r <==> x in s && p(x)
    ensures IsSubsequence(r, s)
    decreases |s|
  {
    if s == [] then []
    else
      var rest := Filter(s[1..], p);
      assert s == [s[0]] + s[1..];
      if p(s[0]) then [s[0]] + rest else rest
  }

  lemma {:induction false} FilterAppend<T(!new)>(a: seq<T>, b: seq<T>, p: T -> bool)
    ensures Filter(a + b, p) == Filter(a, p) + Filter(b, p)
    decreases |a|
  {
    if a == [] {
      assert a + b == b;
    } else {
      assert (a + b)[0] == a[0] && (a + b)[1..] == a[1..] + b;
      FilterAppend(a[1..], b, p);
    }
  }

  /** Selecting with two masks that agree on every element gives the same rows. */
  lemma {:induction false} FilterSameMask<T(!new)>(s: seq<T>, p: T -> bool, q: T -> bool)
    requires forall i :: 0 <= i < |s| ==> p(s[i]) == q(s[i])
    ensures Filter(s, p) == Filter(s, q)
    decreases |s|
  {
    if s != [] {
      FilterSameMask(s[1..], p, q);
    }
  }

  /** A mask that is true everywhere selects the whole sequence. */
  lemma {:induction false} FilterAllTrue<T(!new)>(s: seq<T>, p: T -> bool)
    requires forall i :: 0 <= i < |s| ==> p(s[i])
    ensures Filter(s, p) == s
    decreases |s|
  {
    if s != [] {
      FilterAllTrue(s[1..], p);
    }
  }

  /** The selection has one element per `True` entry of the mask. */
  lemma {:induction false} FilterCount<T(!new)>(s: seq<T>, p: T -> bool)
    ensures |Filter(s, p)| == |Satisfying(s, p)|
    decreases |s|
  {
    if s != [] {
      var n := |s| - 1;
      var init := s[..n];
      FilterCount(init, p);
      assert s == init + [s[n]];
      FilterAppend(init, [s[n]], p);
      assert forall i :: 0 <= i < n ==> s[i] == init[i];
      if p(s[n]) {
        assert Satisfying(s, p) == Satisfying(init, p) + {n};
      } else {
        assert Satisfying(s, p) == Satisfying(init, p);
      }
    }
  }

  /** `Series.unique()`: each value once, in order of first appearance. */
  function Unique<T(==,!new)>(s: seq<T>): (r: seq<T>)
    ensures NoDuplicates(r)
    ensures forall x :: x in r <==> x in s
    decreases |s|
  {
    if s == [] then []
    else
      var n := |s| - 1;
      var u := Unique(s[..n]);
      assert s == s[..n] + [s[n]];
      if s[n] in u then u else u + [s[n]]
  }

  /** Non-decreasing under Python's string order. */
  predicate Ascending(s: seq<string>) {
    forall i, j :: 0 <= i < j < |s| ==> !Below(s[j], s[i])
  }

  /** Increasing under Python's string order: sorted and free of duplicates. */
  predicate StrictlyAscending(s: seq<string>) {
    forall i, j :: 0 <= i < j < |s| ==> Below(s[i], s[j])
  }

  /** Places `x` in an ascending list before the first element that is not below it. */
  function Insert(x: string, s: seq<string>): (r: seq<string>)
    ensures multiset(r) == multiset(s) + multiset{x}
    decreases |s|
  {
    if s == [] then [x]
    else if Below(s[0], x) then
      assert s == [s[0]] + s[1..];
      [s[0]] + Insert(x, s[1..])
    else [x] + s
  }

  lemma {:induction false} InsertAscending(x: string, s: seq<string>)
    requires Ascending(s)
    ensures Ascending(Insert(x, s))
    decreases |s|
  {
    if s != [] {
      var r := Insert(x, s);
      if Below(s[0], x) {
        InsertAscending(x, s[1..]);
        var tail := Insert(x, s[1..]);
        assert r == [s[0]] + tail;
        forall k | 0 <= k < |tail|
          ensures !Below(tail[k], s[0])
        {
          assert tail[k] in multiset(s[1..]) + multiset{x};
          if tail[k] == x {
            BelowAsymmetric(s[0], x);
          } else {
            assert tail[k] in s[1..];
          }
        }
      } else {
        forall k | 0 <= k < |s|
          ensures !Below(s[k], x)
        {
          if k > 0 {
            AtMostTransitive(x, s[0], s[k]);
          }
        }
      }
    }
  }

  lemma {:induction false} InsertStrictlyAscending(x: string, s: seq<string>)
    requires StrictlyAscending(s) && x !in s
    ensures StrictlyAscending(Insert(x, s))
    decreases |s|
  {
    if s != [] {
      var r := Insert(x, s);
      if Below(s[0], x) {
        InsertStrictlyAscending(x, s[1..]);
        var tail := Insert(x, s[1..]);
        assert r == [s[0]] + tail;
        forall k | 0 <= k < |tail|
          ensures Below(s[0], tail[k])
        {
          assert tail[k] in multiset(s[1..]) + multiset{x};
          if tail[k] != x {
            assert tail[k] in s[1..];
          }
        }
      } else {
        BelowTotal(x, s[0]);
        forall k | 0 <= k < |s|
          ensures Below(x, s[k])
        {
          if k > 0 {
            BelowTransitive(x, s[0], s[k]);
          }
        }
      }
    }
  }

  /** Python's `sorted` on strings: an ascending permutation of its input. */
  function Sort(s: seq<string>): (r: seq<string>)
    ensures multiset(r) == multiset(s)
    ensures Ascending(r)
    decreases |s|
  {
    if s == [] then []
    else
      var rest := Sort(s[1..]);
      assert s == [s[0]] + s[1..];
      InsertAscending(s[0], rest);
      Insert(s[0], rest)
  }

  /** Sorting a list without duplicates gives a strictly increasing list. */
  lemma {:induction false} SortStrictlyAscending(s: seq<string>)
    requires NoDuplicates(s)
    ensures StrictlyAscending(Sort(s))
    decreases |s|
  {
    if s != [] {
      SortStrictlyAscending(s[1..]);
      assert s[0] !in multiset(s[1..]);
      InsertStrictlyAscending(s[0], Sort(s[1..]));
    }
  }

  /** An increasing list repeats no element. */
  lemma StrictlyAscendingNoDuplicates(s: seq<string>)
    requires StrictlyAscending(s)
    ensures NoDuplicates(s)
  {
    forall i, j | 0 <= i < j < |s|
      ensures s[i] != s[j]
    {
      BelowIrreflexive(s[i]);
    }
  }

  /** `sorted(col.unique().tolist())`: the distinct values of a column, in increasing order. */
  function SortedUnique(s: seq<string>): (r: seq<string>)
    ensures StrictlyAscending(r) && NoDuplicates(r)
    ensures forall x :: x in r <==> x in s
  {
    var u := Unique(s);
    SortStrictlyAscending(u);
    StrictlyAscendingNoDuplicates(Sort(u));
    assert forall x :: x in Sort(u) <==> x in multiset(u);
    Sort(u)
  }

  /**
   * A strictly increasing list is determined by its set of elements, so any sort
   * of the distinct values (Python's is Timsort) yields `SortedUnique`'s list.
   */
  lemma {:induction false} StrictlyAscendingUnique(a: seq<string>, b: seq<string>)
    requires StrictlyAscending(a) && StrictlyAscending(b)
    requires forall x :: x in a <==> x in b
    ensures a == b
    decreases |a|
  {
    assert b != [] ==> b[0] in a;
    if a != [] {
      assert a[0] in b;
      if a[0] != b[0] {
        assert b[0] in a;
        var i :| 0 <= i < |a| && a[i] == b[0];
        var j :| 0 <= j < |b| && b[j] == a[0];
        BelowAsymmetric(a[0], a[i]);
        assert false;
      }
      forall x
        ensures x in a[1..] <==> x in b[1..]
      {
        if x in a[1..] {
          var i :| 1 <= i < |a| && a[i] == x;
          BelowIrreflexive(a[0]);
          assert x != b[0] && x in b;
          var j :| 0 <= j < |b| && b[j] == x;
          assert x == b[1..][j - 1];
        }
        if x in b[1..] {
          var j :| 1 <= j < |b| && b[j] == x;
          BelowIrreflexive(b[0]);
          assert x != a[0] && x in a;
          var i :| 0 <= i < |a| && a[i] == x;
          assert x == a[1..][i - 1];
        }
      }
      StrictlyAscendingUnique(a[1..], b[1..]);
      assert a == [a[0]] + a[1..] && b == [b[0]] + b[1..];
    }
  }
}
