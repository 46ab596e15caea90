/** Pixel values and the two window statistics (mean and median) that ignore
    missing values, as numpy's nanmean and nanmedian do. */
module Pixels {

  /** A pixel: the missing sentinel (not-a-number) or a real value. */
  datatype Cell = NaN | Val(v: real)

  /** The two fill operators. */
  datatype Op = Mean | Median

  function Sum(s: seq<real>): real
  {
    if |s| == 0 then 0.0 else Sum(s[..|s| - 1]) + s[|s| - 1]
  }

  /** The mean of the values, as nanmean takes it over the valid ones; values
      that are all the same give that value back. */
  function MeanOf(s: seq<real>): (r: real)
    requires |s| > 0
    ensures Within(s, s[0], s[0]) ==> r == s[0]
  {
    ConstantSum(s);
    Sum(s) / (|s| as real)
  }

  /** Values that are all the same sum to that value times their count. */
  lemma ConstantSum(s: seq<real>)
    requires |s| > 0
    ensures Within(s, s[0], s[0]) ==> Sum(s) == s[0] * (|s| as real)
  {
    if Within(s, s[0], s[0]) {
      SumWithin(s, s[0], s[0]);
    }
  }

  predicate Sorted(s: seq<real>)
  {
    forall i, j :: 0 <= i < j < |s| ==> s[i] <= s[j]
  }

  /** Inserts x before the first element not below it. */
  function Insert(x: real, s: seq<real>): seq<real>
  {
    if |s| == 0 then [x]
    else if x <= s[0] then [x] + s
    else [s[0]] + Insert(x, s[1..])
  }

  /** Inserting adds exactly x to the elements. */
  lemma {:induction false} InsertAdds(x: real, s: seq<real>)
    ensures multiset(Insert(x, s)) == multiset(s) + multiset{x}
  {
    if |s| > 0 && x > s[0] {
      InsertAdds(x, s[1..]);
      assert s == [s[0]] + s[1..];
    }
  }

  /** A sorted sequence stays sorted when an element no larger than all of
      its elements is put in front. */
  lemma SortedCons(v: real, t: seq<real>)
    requires Sorted(t) && forall k :: 0 <= k < |t| ==> v <= t[k]
    ensures Sorted([v] + t)
  {
    var r := [v] + t;
    forall i, j | 0 <= i < j < |r|
      ensures r[i] <= r[j]
    {
      if i > 0 {
        assert r[i] == t[i - 1] && r[j] == t[j - 1];
      }
    }
  }

  /** Inserting into a sorted sequence keeps it sorted. */
  lemma {:induction false} InsertSorted(x: real, s: seq<real>)
    requires Sorted(s)
    ensures Sorted(Insert(x, s))
  {
    if |s| == 0 {
    } else if x <= s[0] {
      SortedCons(x, s);
    } else {
      var t := Insert(x, s[1..]);
      InsertSorted(x, s[1..]);
      InsertAdds(x, s[1..]);
      forall k | 0 <= k < |t|
        ensures s[0] <= t[k]
      {
        assert t[k] in multiset(s[1..]) + multiset{x};
      }
      SortedCons(s[0], t);
    }
  }

  /** Insertion sort: the sorted permutation of s. */
  function Sort(s: seq<real>): (r: seq<real>)
    ensures Sorted(r)
    ensures multiset(r) == multiset(s)
  {
    if |s| == 0 then []
    else
      var t := Sort(s[..|s| - 1]);
      InsertSorted(s[|s| - 1], t);
      InsertAdds(s[|s| - 1], t);
      assert s == s[..|s| - 1] + [s[|s| - 1]];
      Insert(s[|s| - 1], t)
  }

  /** The middle element of a sorted sequence, or the mean of the two middle
      elements when the count is even. */
  function Middle(t: seq<real>): real
    requires |t| > 0
  {
    var n := |t|;
    if n % 2 == 1 then t[n / 2] else (t[n / 2 - 1] + t[n / 2]) / 2.0
  }

  lemma SortLength(s: seq<real>)
    ensures |Sort(s)| == |s|
  {
    assert |Sort(s)| == |multiset(Sort(s))| == |multiset(s)| == |s|;
  }

  /** The median as numpy computes it: the middle element of the sorted values,
      or the mean of the two middle elements when the count is even. */
  function MedianOf(s: seq<real>): (r: real)
    requires |s| > 0
    ensures Within(s, s[0], s[0]) ==> r == s[0]
  {
    SortLength(s);
    SortConstant(s);
    Middle(Sort(s))
  }

  /** Sorting values that are all the same leaves only that value. */
  lemma SortConstant(s: seq<real>)
    requires |s| > 0
    ensures Within(s, s[0], s[0]) ==> Within(Sort(s), s[0], s[0])
  {
    if Within(s, s[0], s[0]) {
      SortWithin(s, s[0], s[0]);
    }
  }

  /** The operator applied to the valid values of a window: a value when there
      is at least one, the missing sentinel when there is none. */
  function Reduce(op: Op, vals: seq<real>): (c: Cell)
    ensures c.Val? <==> |vals| > 0
  {
    if |vals| == 0 then NaN
    else match op
      case Mean => Val(MeanOf(vals))
      case Median => Val(MedianOf(vals))
  }

  predicate Within(s: seq<real>, lo: real, hi: real)
  {
    forall k :: 0 <= k < |s| ==> lo <= s[k] <= hi
  }

  lemma {:induction false} SumWithin(s: seq<real>, lo: real, hi: real)
    requires Within(s, lo, hi)
    ensures lo * (|s| as real) <= Sum(s) <= hi * (|s| as real)
  {
    if |s| > 0 {
      SumWithin(s[..|s| - 1], lo, hi);
    }
  }

  /** The mean lies between any bounds of the values. */
  lemma MeanWithin(s: seq<real>, lo: real, hi: real)
    requires |s| > 0 && Within(s, lo, hi)
    ensures lo <= MeanOf(s) <= hi
  {
    SumWithin(s, lo, hi);
    var n := |s| as real;
    assert MeanOf(s) == Sum(s) / n;
    DivideKeepsOrder(lo * n, Sum(s), n);
    DivideKeepsOrder(Sum(s), hi * n, n);
    Cancel(lo, n);
    Cancel(hi, n);
  }

  lemma Cancel(a: real, n: real)
    requires n > 0.0
    ensures a * n / n == a
  {
  }

  lemma DivideKeepsOrder(a: real, b: real, n: real)
    requires n > 0.0 && a <= b
    ensures a / n <= b / n
  {
    assert b / n - a / n == (b - a) / n;
  }

  /** Sorting keeps any bounds of the values. */
  lemma SortWithin(s: seq<real>, lo: real, hi: real)
    requires Within(s, lo, hi)
    ensures Within(Sort(s), lo, hi)
  {
    var t := Sort(s);
    forall k | 0 <= k < |t|
      ensures lo <= t[k] <= hi
    {
      assert t[k] in multiset(s);
    }
  }

  lemma MiddleWithin(t: seq<real>, lo: real, hi: real)
    requires |t| > 0 && Within(t, lo, hi)
    ensures lo <= Middle(t) <= hi
  {
  }

  /** The median lies between any bounds of the values. */
  lemma MedianWithin(s: seq<real>, lo: real, hi: real)
    requires |s| > 0 && Within(s, lo, hi)
    ensures lo <= MedianOf(s) <= hi
  {
    SortLength(s);
    SortWithin(s, lo, hi);
    MiddleWithin(Sort(s), lo, hi);
  }

  /** Whatever the operator, the value written for a non-empty window lies
      between any bounds of the window's valid values. In particular a window
      whose valid values all equal c yields c. */
  lemma ReduceWithin(op: Op, vals: seq<real>, lo: real, hi: real)
    requires |vals| > 0 && Within(vals, lo, hi)
    ensures Reduce(op, vals).Val?
    ensures lo <= Reduce(op, vals).v <= hi
  {
    match op
    case Mean => MeanWithin(vals, lo, hi);
    case Median => MedianWithin(vals, lo, hi);
  }

  lemma HeadSplit(a: seq<real>)
    requires |a| > 0
    ensures multiset(a) == multiset{a[0]} + multiset(a[1..])
  {
    assert a == [a[0]] + a[1..];
  }

  /** The head of a sorted sequence is at most any of its elements. */
  lemma HeadLeast(a: seq<real>, v: real)
    requires Sorted(a) && v in multiset(a)
    ensures |a| > 0 && a[0] <= v
  {
    var j :| 0 <= j < |a| && a[j] == v;
  }

  /** Removing the equal heads of two sequences with the same elements leaves
      two sequences with the same elements. */
  lemma TailsAgree(a: seq<real>, b: seq<real>)
    requires |a| > 0 && |b| > 0 && a[0] == b[0] && multiset(a) == multiset(b)
    ensures multiset(a[1..]) == multiset(b[1..])
  {
    HeadSplit(a);
    HeadSplit(b);
    assert multiset(a[1..]) == multiset(a) - multiset{a[0]};
    assert multiset(b[1..]) == multiset(b) - multiset{b[0]};
  }

  lemma SortedTail(a: seq<real>)
    requires |a| > 0 && Sorted(a)
    ensures Sorted(a[1..])
  {
  }

  /** Two sorted sequences with the same elements are equal. */
  lemma {:induction false} SortedUnique(a: seq<real>, b: seq<real>)
    requires Sorted(a) && Sorted(b) && multiset(a) == multiset(b)
    ensures a == b
  {
    if |a| == 0 {
      assert |b| == |multiset(b)| == 0;
    } else {
      HeadLeast(b, a[0]);
      HeadLeast(a, b[0]);
      TailsAgree(a, b);
      SortedTail(a);
      SortedTail(b);
      SortedUnique(a[1..], b[1..]);
      assert a == [a[0]] + a[1..] && b == [b[0]] + b[1..];
    }
  }

  /** The median depends only on the multiset of values, not on the order in
      which the window was flattened. */
  lemma MedianOrderFree(s: seq<real>, s': seq<real>)
    requires |s| > 0 && multiset(s) == multiset(s')
    ensures |s'| > 0 && MedianOf(s) == MedianOf(s')
  {
    assert |s'| == |multiset(s')| == |s|;
    SortedUnique(Sort(s), Sort(s'));
  }

  /** The median of sorted values is their middle. */
  lemma MedianOfSorted(t: seq<real>)
    requires |t| > 0 && Sorted(t)
    ensures MedianOf(t) == Middle(t)
  {
    SortedUnique(Sort(t), t);
  }

  /** The even-count rule: the median of two values is their average, as is
      their mean (so [1, 3] gives 2). */
  lemma PairExample(a: real, b: real)
    requires a <= b
    ensures MedianOf([a, b]) == (a + b) / 2.0
    ensures MeanOf([a, b]) == (a + b) / 2.0
  {
    var two := [a, b];
    MedianOfSorted(two);
    assert two[..1] == [a] && two[..1][..0] == [];
    assert Sum(two[..1]) == a;
    assert Sum(two) == a + b;
  }
}
