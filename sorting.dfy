/** `Array.prototype.sort` as app.js uses it: with a comparator `(a, b) =>
    key(b) - key(a)`, so larger keys come first, and (as the language has
    required since 2019) stably, so elements with equal keys keep their
    relative order. The order is specified by a stable insertion sort on
    sequences; the array method that sorts in place is proved to produce it. */
module Sorting {
  import opened Seqs

  /** Keys never increase from left to right. */
  ghost predicate SortedDesc<T>(s: seq<T>, key: T -> int)
  {
    forall i, j :: 0 <= i < j < |s| ==> key(s[i]) >= key(s[j])
  }

  /** The elements whose key is `k`. */
  function KeyIs<T>(key: T -> int, k: int): T -> bool
  {
    (x: T) => key(x) == k
  }

  /** Puts `x` in front of the first element with a smaller key, that is,
      after every element whose key is at least `key(x)`. */
  function InsertDesc<T>(t: seq<T>, x: T, key: T -> int): (r: seq<T>)
    ensures |r| == |t| + 1
  {
    if t == [] || key(t[0]) < key(x) then [x] + t
    else [t[0]] + InsertDesc(t[1..], x, key)
  }

  /** The order `sort` leaves the array in: each element, taken from left
      to right, is inserted behind the elements already placed whose key is
      at least its own. */
  function SortDesc<T>(s: seq<T>, key: T -> int): (r: seq<T>)
    ensures |r| == |s|
  {
    if s == [] then []
    else InsertDesc(SortDesc(s[..|s| - 1], key), s[|s| - 1], key)
  }

  lemma {:induction false} InsertDescPermutes<T>(t: seq<T>, x: T, key: T -> int)
    ensures multiset(InsertDesc(t, x, key)) == multiset(t) + multiset{x}
  {
    if t != [] && key(t[0]) >= key(x) {
      InsertDescPermutes(t[1..], x, key);
      assert t == [t[0]] + t[1..];
    }
  }

  /** The sort's output is a permutation of its input. */
  lemma {:induction false} SortDescPermutes<T>(s: seq<T>, key: T -> int)
    ensures multiset(SortDesc(s, key)) == multiset(s)
  {
    if s != [] {
      SortDescPermutes(s[..|s| - 1], key);
      InsertDescPermutes(SortDesc(s[..|s| - 1], key), s[|s| - 1], key);
      assert s == s[..|s| - 1] + [s[|s| - 1]];
    }
  }

  lemma {:induction false} InsertDescSorted<T>(t: seq<T>, x: T, key: T -> int)
    requires SortedDesc(t, key)
    ensures SortedDesc(InsertDesc(t, x, key), key)
  {
    if t != [] && key(t[0]) >= key(x) {
      InsertDescSorted(t[1..], x, key);
      InsertDescPermutes(t[1..], x, key);
      var r := InsertDesc(t[1..], x, key);
      forall j | 0 <= j < |r|
        ensures key(t[0]) >= key(r[j])
      {
        assert r[j] in multiset(r);
        if r[j] != x {
          assert r[j] in multiset(t[1..]);
          var m :| 0 <= m < |t[1..]| && t[1..][m] == r[j];
          assert t[m + 1] == r[j];
        }
      }
    }
  }

  /** The sort's output is ordered by key, largest first. */
  lemma {:induction false} SortDescSorted<T>(s: seq<T>, key: T -> int)
    ensures SortedDesc(SortDesc(s, key), key)
  {
    if s != [] {
      SortDescSorted(s[..|s| - 1], key);
      InsertDescSorted(SortDesc(s[..|s| - 1], key), s[|s| - 1], key);
    }
  }

  /** What the array insertion step computes: when every element from `j`
      on has a smaller key than `x` and the one before `j` does not, the
      insertion puts `x` at index `j`. */
  lemma {:induction false} InsertDescAt<T>(t: seq<T>, x: T, key: T -> int, j: nat)
    requires SortedDesc(t, key)
    requires j <= |t|
    requires j > 0 ==> key(t[j - 1]) >= key(x)
    requires forall m :: j <= m < |t| ==> key(t[m]) < key(x)
    ensures InsertDesc(t, x, key) == t[..j] + [x] + t[j..]
  {
    if j > 0 {
      assert key(t[0]) >= key(t[j - 1]);
      InsertDescAt(t[1..], x, key, j - 1);
      assert t[..j] == [t[0]] + t[1..][..j - 1];
      assert t[j..] == t[1..][j - 1..];
    }
  }

  /** In a sorted sequence no element has a larger key than the first. */
  lemma FirstIsLargest<T>(t: seq<T>, key: T -> int, y: T)
    requires SortedDesc(t, key)
    requires t != [] && y in multiset(t)
    ensures key(y) <= key(t[0])
  {
    var m :| 0 <= m < |t| && t[m] == y;
  }

  lemma SortedTail<T>(t: seq<T>, key: T -> int)
    requires SortedDesc(t, key) && t != []
    ensures SortedDesc(t[1..], key)
  {
    forall i, j | 0 <= i < j < |t| - 1
      ensures key(t[1..][i]) >= key(t[1..][j])
    {
      assert t[1..][i] == t[i + 1] && t[1..][j] == t[j + 1];
    }
  }

  /** `[y] + t` filtered, one element at a time. */
  lemma FilterCons<T>(y: T, t: seq<T>, p: T -> bool)
    ensures Filter([y] + t, p) == (if p(y) then [y] else []) + Filter(t, p)
  {
    FilterAppend([y], t, p);
    FilterSnoc([], y, p);
  }

  /** Filtering out the inserted element undoes the insertion. */
  lemma {:induction false} InsertDescFilterOut<T>(t: seq<T>, x: T, key: T -> int, p: T -> bool)
    requires !p(x)
    ensures Filter(InsertDesc(t, x, key), p) == Filter(t, p)
  {
    if t == [] || key(t[0]) < key(x) {
      FilterCons(x, t, p);
    } else {
      var t' := t[1..];
      assert t == [t[0]] + t';
      InsertDescFilterOut(t', x, key, p);
      FilterCons(t[0], InsertDesc(t', x, key), p);
      FilterCons(t[0], t', p);
    }
  }

  /** Filtering a sorted sequence cannot bring a larger key to the front. */
  lemma FilterHeadBelow<T>(t: seq<T>, key: T -> int, p: T -> bool)
    requires SortedDesc(t, key)
    requires Filter(t, p) != []
    ensures t != [] && key(Filter(t, p)[0]) <= key(t[0])
  {
    var ft := Filter(t, p);
    FilterMembers(t, p);
    assert ft[0] in multiset(ft);
    FirstIsLargest(t, key, ft[0]);
  }

  /** Keeping the inserted element: the filter of the insertion is the
      insertion into the filter. */
  lemma {:induction false} InsertDescFilterIn<T>(t: seq<T>, x: T, key: T -> int, p: T -> bool)
    requires SortedDesc(t, key)
    requires p(x)
    ensures Filter(InsertDesc(t, x, key), p) == InsertDesc(Filter(t, p), x, key)
  {
    if t == [] || key(t[0]) < key(x) {
      FilterCons(x, t, p);
      if Filter(t, p) != [] {
        FilterHeadBelow(t, key, p);
      }
    } else {
      var t' := t[1..];
      assert t == [t[0]] + t';
      SortedTail(t, key);
      InsertDescFilterIn(t', x, key, p);
      FilterCons(t[0], InsertDesc(t', x, key), p);
      FilterCons(t[0], t', p);
      var f' := Filter(t', p);
      var i' := InsertDesc(t', x, key);
      assert InsertDesc(t, x, key) == [t[0]] + i';
      if p(t[0]) {
        assert Filter(t, p) == [t[0]] + f';
        assert ([t[0]] + f')[0] == t[0] && ([t[0]] + f')[1..] == f';
        assert Filter([t[0]] + i', p) == [t[0]] + Filter(i', p);
      } else {
        assert Filter(t, p) == f';
        assert Filter([t[0]] + i', p) == Filter(i', p);
      }
    }
  }

  /** Filtering after sorting equals sorting after filtering: the sort is
      stable, so dropping elements does not disturb the others' order. */
  lemma {:induction false} SortDescFilter<T>(s: seq<T>, key: T -> int, p: T -> bool)
    ensures Filter(SortDesc(s, key), p) == SortDesc(Filter(s, p), key)
  {
    if s != [] {
      var s', x := s[..|s| - 1], s[|s| - 1];
      assert s == s' + [x];
      SortDescFilter(s', key, p);
      FilterSnoc(s', x, p);
      if p(x) {
        SortDescSorted(s', key);
        InsertDescFilterIn(SortDesc(s', key), x, key, p);
        var fs := Filter(s', p);
        assert (fs + [x])[..|fs + [x]| - 1] == fs;
      } else {
        InsertDescFilterOut(SortDesc(s', key), x, key, p);
        assert Filter(s, p) == Filter(s', p);
      }
    }
  }

  /** Sorting elements that all have the same key changes nothing. */
  lemma {:induction false} SortDescConstantKey<T>(s: seq<T>, key: T -> int, k: int)
    requires forall i :: 0 <= i < |s| ==> key(s[i]) == k
    ensures SortDesc(s, key) == s
  {
    if s != [] {
      var s', x := s[..|s| - 1], s[|s| - 1];
      SortDescConstantKey(s', key, k);
      assert s == s' + [x];
      InsertDescAt(s', x, key, |s'|);
      assert s'[..|s'|] == s';
    }
  }

  /** Stability: the elements with any one key come out in the order they
      went in. */
  lemma SortDescStable<T>(s: seq<T>, key: T -> int, k: int)
    ensures Filter(SortDesc(s, key), KeyIs(key, k)) == Filter(s, KeyIs(key, k))
  {
    SortDescFilter(s, key, KeyIs(key, k));
    FilterSatisfies(s, KeyIs(key, k));
    SortDescConstantKey(Filter(s, KeyIs(key, k)), key, k);
  }

  lemma {:induction false} InsertDescSum<T>(t: seq<T>, x: T, key: T -> int, f: T -> int)
    ensures SumOf(InsertDesc(t, x, key), f) == SumOf(t, f) + f(x)
  {
    if t == [] || key(t[0]) < key(x) {
      SumOfAppend([x], t, f);
      SumOfSnoc([], x, f);
    } else {
      InsertDescSum(t[1..], x, key, f);
      SumOfAppend([t[0]], InsertDesc(t[1..], x, key), f);
      SumOfAppend([t[0]], t[1..], f);
      assert t == [t[0]] + t[1..];
    }
  }

  /** Sorting does not change a sum over the elements. */
  lemma {:induction false} SortDescSum<T>(s: seq<T>, key: T -> int, f: T -> int)
    ensures SumOf(SortDesc(s, key), f) == SumOf(s, f)
  {
    if s != [] {
      SortDescSum(s[..|s| - 1], key, f);
      InsertDescSum(SortDesc(s[..|s| - 1], key), s[|s| - 1], key, f);
    }
  }

  /** A sequence that agrees with `t` before `j`, holds `x` at `j` and `t`
      shifted by one after it is `t` with `x` inserted at `j`. */
  lemma Spliced<T>(r: seq<T>, t: seq<T>, x: T, j: nat)
    requires j <= |t| && |r| == |t| + 1
    requires forall m :: 0 <= m < j ==> r[m] == t[m]
    requires r[j] == x
    requires forall m :: j < m < |r| ==> r[m] == t[m - 1]
    ensures r == t[..j] + [x] + t[j..]
  {
  }

  /** One pass of the insertion sort: shifts the elements of the sorted
      prefix `a[..i]` that have a smaller key than `a[i]` one place to the
      right and drops `a[i]` into the gap. */
  method InsertInPlace<T>(a: array<T>, i: nat, key: T -> int)
    requires i < a.Length
    requires SortedDesc(a[..i], key)
    modifies a
    ensures a[..i + 1] == InsertDesc(old(a[..i]), old(a[i]), key)
    ensures forall m :: i < m < a.Length ==> a[m] == old(a[m])
  {
    var x := a[i];
    ghost var t := a[..i];
    var j := i;
    while j > 0 && key(a[j - 1]) < key(x)
      invariant 0 <= j <= i
      invariant forall m :: 0 <= m < j ==> a[m] == t[m]
      invariant forall m :: j < m <= i ==> a[m] == t[m - 1]
      invariant forall m :: i < m < a.Length ==> a[m] == old(a[m])
      invariant forall m :: j <= m < i ==> key(t[m]) < key(x)
    {
      a[j] := a[j - 1];
      j := j - 1;
    }
    a[j] := x;
    InsertDescAt(t, x, key, j);
    Spliced(a[..i + 1], t, x, j);
  }

  /** `a.sort((x, y) => key(y) - key(x))`, in place: a stable insertion sort. */
  method SortDescInPlace<T>(a: array<T>, key: T -> int)
    modifies a
    ensures a[..] == SortDesc(old(a[..]), key)
  {
    ghost var input := a[..];
    var i := 0;
    while i < a.Length
      invariant 0 <= i <= a.Length
      invariant a[..i] == SortDesc(input[..i], key)
      invariant forall m :: i <= m < a.Length ==> a[m] == input[m]
    {
      SortDescSorted(input[..i], key);
      InsertInPlace(a, i, key);
      assert input[..i + 1] == input[..i] + [input[i]];
      i := i + 1;
    }
    assert input[..a.Length] == input;
  }
}
