/**
 * The four reducers of `Value.computing_funcs`: Average (`sum(x) / len(x)`),
 * Net (`sum`), Mean (`statistics.mean`) and Median (`statistics.median`), over
 * amounts modelled as exact reals. A reducer that raises on an empty input
 * (division by zero, `StatisticsError`) returns None.
 */
module Reducers {
  import opened Wrappers
  import opened Choices

  /** Python's `sum`: 0 on the empty sequence. */
  function Sum(s: seq<real>): real
  {
    if s == [] then 0.0 else s[0] + Sum(s[1..])
  }

  /** `lambda x: sum(x) / len(x)`; dividing by a zero length raises. */
  function Average(s: seq<real>): Option<real>
  {
    if s == [] then None else Some(Sum(s) / (|s| as real))
  }

  /**
   * The arithmetic mean, defined independently of Sum as a running mean:
   * each new element moves the mean of the elements before it by 1/n of
   * its distance from that mean.
   */
  function RunningMean(s: seq<real>): real
    requires s != []
    decreases |s|
  {
    if |s| == 1 then s[0]
    else
      var m := RunningMean(s[..|s| - 1]);
      m + (s[|s| - 1] - m) / (|s| as real)
  }

  /** `statistics.mean`; raises `StatisticsError` on an empty input. */
  function Mean(s: seq<real>): Option<real>
  {
    if s == [] then None else Some(RunningMean(s))
  }

  predicate SortedAsc(s: seq<real>)
  {
    forall i, j :: 0 <= i < j < |s| ==> s[i] <= s[j]
  }

  /** Inserts x before the first element that is not smaller than it. */
  function Insert(x: real, s: seq<real>): seq<real>
  {
    if s == [] || x <= s[0] then [x] + s else [s[0]] + Insert(x, s[1..])
  }

  /** The ascending arrangement `sorted(data)` that `statistics.median` starts from. */
  function Sort(s: seq<real>): seq<real>
  {
    if s == [] then [] else Insert(s[0], Sort(s[1..]))
  }

  /**
   * `statistics.median`: the middle element of the sorted data when its length is
   * odd, the mean of the two middle elements when it is even; raises on empty data.
   */
  function Median(s: seq<real>): Option<real>
  {
    if s == [] then None
    else
      var t := Sort(s);
      var n := |t|;
      if n % 2 == 1 then Some(t[n / 2]) else Some((t[n / 2 - 1] + t[n / 2]) / 2.0)
  }

  /** `Value.compute`: the reducer selected by the calculation format. */
  function Compute(values: seq<real>, format: CalFormat): Option<real>
  {
    match format
    case Average => Average(values)
    case Net => Some(Sum(values))
    case Mean => Mean(values)
    case Median => Median(values)
  }

  // ---------------------------------------------------------------------------
  // Sum

  lemma {:induction false} SumAppend(s: seq<real>, t: seq<real>)
    ensures Sum(s + t) == Sum(s) + Sum(t)
  {
    if s == [] {
      assert s + t == t;
    } else {
      assert (s + t)[1..] == s[1..] + t;
      SumAppend(s[1..], t);
    }
  }

  /** Removing the element at index i takes exactly s[i] off the sum. */
  lemma SumRemove(s: seq<real>, i: nat)
    requires i < |s|
    ensures Sum(s) == s[i] + Sum(s[..i] + s[i + 1..])
  {
    var front, back := s[..i], s[i + 1..];
    assert s == front + ([s[i]] + back);
    SumAppend(front, [s[i]] + back);
    assert ([s[i]] + back)[1..] == back;
    assert Sum([s[i]] + back) == s[i] + Sum(back);
    SumAppend(front, back);
  }

  /** Taking the element at index i out of a sequence takes one copy of it out of its multiset. */
  lemma MultisetRemove(t: seq<real>, i: nat)
    requires i < |t|
    ensures multiset(t[..i] + t[i + 1..]) == multiset(t) - multiset{t[i]}
  {
    assert t == t[..i] + [t[i]] + t[i + 1..];
  }

  /** Net depends only on the multiset of amounts, not on their order. */
  lemma {:induction false} SumPermutation(s: seq<real>, t: seq<real>)
    requires multiset(s) == multiset(t)
    ensures Sum(s) == Sum(t)
    decreases |s|
  {
    if s == [] {
      assert |t| == |multiset(t)| == 0;
    } else {
      assert s[0] in multiset(t);
      var i :| 0 <= i < |t| && t[i] == s[0];
      MultisetTail(s);
      MultisetRemove(t, i);
      SumPermutation(s[1..], t[..i] + t[i + 1..]);
      SumRemove(t, i);
    }
  }

  // ---------------------------------------------------------------------------
  // Average and Mean

  /** One step of the running mean, as arithmetic on reals. */
  lemma MeanStep(total: real, x: real, n: real)
    requires n > 1.0
    ensures total / (n - 1.0) + (x - total / (n - 1.0)) / n == (total + x) / n
  {
    var m := total / (n - 1.0);
    assert m * (n - 1.0) == total;
    assert (m + (x - m) / n) * n == m * n + (x - m);
    assert m * n + (x - m) == total + x;
  }

  lemma {:induction false} RunningMeanIsAverage(s: seq<real>)
    requires s != []
    ensures RunningMean(s) == Sum(s) / (|s| as real)
    decreases |s|
  {
    if |s| > 1 {
      var p := s[..|s| - 1];
      var x := s[|s| - 1];
      RunningMeanIsAverage(p);
      assert s == p + [x];
      SumAppend(p, [x]);
      assert Sum([x]) == x;
      assert |p| as real == (|s| as real) - 1.0;
      MeanStep(Sum(p), x, |s| as real);
    }
  }

  /**
   * Average and Mean are the same reduction: they agree on every input, and both
   * raise on the empty one.
   */
  lemma AverageIsMean(s: seq<real>)
    ensures Mean(s) == Average(s)
  {
    if s != [] {
      RunningMeanIsAverage(s);
    }
  }

  // ---------------------------------------------------------------------------
  // Sorting and the median

  lemma {:induction false} InsertSorted(x: real, s: seq<real>)
    requires SortedAsc(s)
    ensures SortedAsc(Insert(x, s))
    ensures multiset(Insert(x, s)) == multiset{x} + multiset(s)
    ensures |Insert(x, s)| == |s| + 1
  {
    if s == [] || x <= s[0] {
      assert Insert(x, s) == [x] + s;
    } else {
      InsertSorted(x, s[1..]);
      var r := Insert(x, s[1..]);
      assert s == [s[0]] + s[1..];
      forall k | 0 <= k < |r|
        ensures s[0] <= r[k]
      {
        assert r[k] in multiset(r);
        if r[k] != x {
          assert r[k] in multiset(s[1..]);
          assert r[k] in s[1..];
        }
      }
      assert Insert(x, s) == [s[0]] + r;
    }
  }

  lemma {:induction false} SortCorrect(s: seq<real>)
    ensures SortedAsc(Sort(s))
    ensures multiset(Sort(s)) == multiset(s)
    ensures |Sort(s)| == |s|
  {
    if s != [] {
      SortCorrect(s[1..]);
      InsertSorted(s[0], Sort(s[1..]));
      assert s == [s[0]] + s[1..];
    }
  }

  lemma SortedTail(s: seq<real>)
    requires s != [] && SortedAsc(s)
    ensures SortedAsc(s[1..])
  {
    forall i, j | 0 <= i < j < |s| - 1
      ensures s[1..][i] <= s[1..][j]
    {
      assert s[1..][i] == s[i + 1] && s[1..][j] == s[j + 1];
    }
  }

  /** The head of an ascending sequence is no greater than anything in it. */
  lemma SortedHead(s: seq<real>, x: real)
    requires s != [] && SortedAsc(s) && x in multiset(s)
    ensures s[0] <= x
  {
    var j :| 0 <= j < |s| && s[j] == x;
    if j > 0 { assert s[0] <= s[j]; }
  }

  /** Removing the head of a sequence removes one copy of it from its multiset. */
  lemma MultisetTail(s: seq<real>)
    requires s != []
    ensures multiset(s[1..]) == multiset(s) - multiset{s[0]}
  {
    assert s == [s[0]] + s[1..];
  }

  /** Two ascending arrangements of one multiset start alike and continue as two such arrangements. */
  lemma SortedUniqueStep(s: seq<real>, t: seq<real>)
    requires s != [] && SortedAsc(s) && SortedAsc(t)
    requires multiset(s) == multiset(t)
    ensures t != [] && s[0] == t[0]
    ensures SortedAsc(s[1..]) && SortedAsc(t[1..]) && multiset(s[1..]) == multiset(t[1..])
  {
    assert |t| == |multiset(t)| == |multiset(s)| == |s|;
    SortedHead(s, t[0]);
    SortedHead(t, s[0]);
    MultisetTail(s);
    MultisetTail(t);
    SortedTail(s);
    SortedTail(t);
  }

  /** Two ascending arrangements of the same multiset are the same sequence. */
  lemma {:induction false} SortedUnique(s: seq<real>, t: seq<real>)
    requires SortedAsc(s) && SortedAsc(t)
    requires multiset(s) == multiset(t)
    ensures s == t
    decreases |s|
  {
    if s == [] {
      assert |t| == |multiset(t)| == 0;
    } else {
      SortedUniqueStep(s, t);
      SortedUnique(s[1..], t[1..]);
      assert s == [s[0]] + s[1..] && t == [t[0]] + t[1..];
    }
  }

  /**
   * The median of any input is read off any ascending arrangement of it: the
   * middle element for an odd length, the mean of the two middle elements for an
   * even one.
   */
  lemma MedianOfSorted(s: seq<real>, t: seq<real>)
    requires s != []
    requires SortedAsc(t) && multiset(t) == multiset(s)
    ensures |t| == |s|
    ensures Median(s) == if |t| % 2 == 1 then Some(t[|t| / 2])
                         else Some((t[|t| / 2 - 1] + t[|t| / 2]) / 2.0)
  {
    SortCorrect(s);
    SortedUnique(Sort(s), t);
  }

  /** The median depends only on the multiset of amounts. */
  lemma MedianPermutation(s: seq<real>, t: seq<real>)
    requires multiset(s) == multiset(t)
    ensures Median(s) == Median(t)
  {
    SortCorrect(s);
    SortCorrect(t);
    SortedUnique(Sort(s), Sort(t));
  }

  /** Every reducer depends only on the multiset of its inputs, not their order. */
  lemma ComputePermutation(s: seq<real>, t: seq<real>, format: CalFormat)
    requires multiset(s) == multiset(t)
    ensures Compute(s, format) == Compute(t, format)
  {
    assert |s| == |multiset(s)| == |multiset(t)| == |t|;
    SumPermutation(s, t);
    AverageIsMean(s);
    AverageIsMean(t);
    MedianPermutation(s, t);
  }

  /** Net, Average and Mean of amounts within [lo, hi] stay within the bounds that apply. */
  lemma {:induction false} SumBounds(s: seq<real>, lo: real, hi: real)
    requires forall i :: 0 <= i < |s| ==> lo <= s[i] <= hi
    ensures (|s| as real) * lo <= Sum(s) <= (|s| as real) * hi
  {
    if s != [] {
      SumBounds(s[1..], lo, hi);
    }
  }

  /** Multiplying by a positive factor keeps a strict order. */
  lemma MulLess(a: real, b: real, n: real)
    requires n > 0.0 && a < b
    ensures a * n < b * n
  {
  }

  /** A total between n·lo and n·hi, shared among n, lies between lo and hi. */
  lemma DivideBounds(total: real, n: real, lo: real, hi: real)
    requires n > 0.0 && n * lo <= total <= n * hi
    ensures lo <= total / n <= hi
  {
    var q := total / n;
    assert q * n == total;
    if q < lo {
      MulLess(q, lo, n);
      assert false;
    }
    if hi < q {
      MulLess(hi, q, n);
      assert false;
    }
  }

  /** The median of amounts within [lo, hi] lies within [lo, hi]. */
  lemma MedianBounds(s: seq<real>, lo: real, hi: real)
    requires s != []
    requires forall i :: 0 <= i < |s| ==> lo <= s[i] <= hi
    ensures Median(s).Some? && lo <= Median(s).value <= hi
  {
    SortCorrect(s);
    var t := Sort(s);
    forall k | 0 <= k < |t|
      ensures lo <= t[k] <= hi
    {
      assert t[k] in multiset(s);
      var i :| 0 <= i < |s| && s[i] == t[k];
    }
  }

  /** Every reducer on a non-empty input lands between its least and greatest amount. */
  lemma ComputeBounds(s: seq<real>, format: CalFormat, lo: real, hi: real)
    requires s != []
    requires forall i :: 0 <= i < |s| ==> lo <= s[i] <= hi
    ensures format != Net ==> Compute(s, format).Some?
    ensures format != Net ==> lo <= Compute(s, format).value <= hi
  {
    match format
    case Net =>
    case Median => MedianBounds(s, lo, hi);
    case _ =>
      SumBounds(s, lo, hi);
      AverageIsMean(s);
      DivideBounds(Sum(s), |s| as real, lo, hi);
  }
}
