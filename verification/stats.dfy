/** Pure arithmetic on sequences of sample values: the comparator and the
    affine rescaling of `kdb.h`, and the reference definitions (total, extremes,
    population variance, median) that the store's incremental and lazy
    statistics are proved against. Values are exact reals. */
module Stats {
  import opened ExtReal

  /** `kdb_compare_values`: the three-way comparator handed to `qsort`. */
  function Compare(a: real, b: real): (c: int)
    ensures c == -1 <==> a < b
    ensures c == 0 <==> a == b
    ensures c == 1 <==> b < a
  {
    if a < b then -1 else if b < a then 1 else 0
  }

  /** `kdb_map_value`: rescale `v` affinely from `[minA, maxA]` to `[minB, maxB]`.
      The source divides by `maxA - minA` without a guard; the degenerate range
      is outside the model. */
  function MapValue(v: real, minA: real, maxA: real, minB: real, maxB: real): (r: real)
    requires minA != maxA
    ensures v == minA ==> r == minB
    ensures v == maxA ==> r == maxB
  {
    var ra := maxA - minA;
    assert v == maxA ==> (v - minA) * (maxB - minB) / ra == maxB - minB by {
      if v == maxA {
        assert (v - minA) * (maxB - minB) == ra * (maxB - minB);
      }
    }
    (v - minA) * (maxB - minB) / ra + minB
  }

  /** Rescaling there and back again gives the value back. */
  lemma MapValueRoundTrip(v: real, minA: real, maxA: real, minB: real, maxB: real)
    requires minA != maxA && minB != maxB
    ensures MapValue(MapValue(v, minA, maxA, minB, maxB), minB, maxB, minA, maxA) == v
  {
    var w := MapValue(v, minA, maxA, minB, maxB);
    ScaleBack(v - minA, maxB - minB, maxA - minA);
    assert w - minB == (v - minA) * (maxB - minB) / (maxA - minA);
  }

  /** Scaling by `y/x` and then by `x/y` is the identity. */
  lemma ScaleBack(d: real, y: real, x: real)
    requires x != 0.0 && y != 0.0
    ensures (d * y / x) * x / y == d
  {
    var e := d * y / x;
    assert e * x == d * y;
  }

  /** A value inside the source range lands inside the target range. */
  lemma MapValueInRange(v: real, minA: real, maxA: real, minB: real, maxB: real)
    requires minA < maxA && minB <= maxB && minA <= v <= maxA
    ensures minB <= MapValue(v, minA, maxA, minB, maxB) <= maxB
  {
    var ra, rb := maxA - minA, maxB - minB;
    var f := (v - minA) / ra;
    assert 0.0 <= f <= 1.0;
    assert (v - minA) * rb / ra == f * rb;
    assert 0.0 <= f * rb <= rb;
  }

  // ---------------------------------------------------------------------------
  // Totals and extremes, folded from the first sample to the last, the order in
  // which the store receives them

  function Total(s: seq<real>): real {
    if |s| == 0 then 0.0 else Total(s[..|s| - 1]) + s[|s| - 1]
  }

  function MinOf(s: seq<real>): (m: EReal)
    ensures |s| > 0 ==> m.Fin?
  {
    if |s| == 0 then PosInf else Min(MinOf(s[..|s| - 1]), Fin(s[|s| - 1]))
  }

  function MaxOf(s: seq<real>): (m: EReal)
    ensures |s| > 0 ==> m.Fin?
  {
    if |s| == 0 then NegInf else Max(MaxOf(s[..|s| - 1]), Fin(s[|s| - 1]))
  }

  /** The total of a concatenation is the sum of the totals. */
  lemma {:induction false} TotalAppend(a: seq<real>, b: seq<real>)
    ensures Total(a + b) == Total(a) + Total(b)
    decreases |b|
  {
    if |b| > 0 {
      var last := |b| - 1;
      assert (a + b)[..|a + b| - 1] == a + b[..last];
      assert (a + b)[|a + b| - 1] == b[last];
      TotalAppend(a, b[..last]);
    } else {
      assert a + b == a;
    }
  }

  /** The folded minimum is a sample no greater than any other sample. */
  lemma {:induction false} MinOfIsLeast(s: seq<real>)
    requires |s| > 0
    ensures MinOf(s).Fin?
    ensures MinOf(s).r in s
    ensures forall x :: x in s ==> MinOf(s).r <= x
  {
    var p, x := s[..|s| - 1], s[|s| - 1];
    assert s == p + [x];
    if |p| > 0 {
      MinOfIsLeast(p);
    }
  }

  /** The folded maximum is a sample no smaller than any other sample. */
  lemma {:induction false} MaxOfIsGreatest(s: seq<real>)
    requires |s| > 0
    ensures MaxOf(s).Fin?
    ensures MaxOf(s).r in s
    ensures forall x :: x in s ==> x <= MaxOf(s).r
  {
    var p, x := s[..|s| - 1], s[|s| - 1];
    assert s == p + [x];
    if |p| > 0 {
      MaxOfIsGreatest(p);
    }
  }

  // ---------------------------------------------------------------------------
  // Population variance

  /** The sum of squared deviations from `a`. */
  function SquaredDeviations(s: seq<real>, a: real): real {
    if |s| == 0 then 0.0
    else SquaredDeviations(s[..|s| - 1], a) + (s[|s| - 1] - a) * (s[|s| - 1] - a)
  }

  function SumOfSquares(s: seq<real>): real {
    if |s| == 0 then 0.0 else SumOfSquares(s[..|s| - 1]) + s[|s| - 1] * s[|s| - 1]
  }

  function Mean(s: seq<real>): real
    requires |s| > 0
  {
    Total(s) / |s| as real
  }

  /** Population variance: squared deviations from the mean, divided by the
      count (not the count minus one). */
  function PopulationVariance(s: seq<real>): real
    requires |s| > 0
  {
    SquaredDeviations(s, Mean(s)) / |s| as real
  }

  /** Σ(x - a)² = Σx² - 2aΣx + n·a². */
  lemma {:induction false} SquaredDeviationsExpand(s: seq<real>, a: real)
    ensures SquaredDeviations(s, a) == SumOfSquares(s) - 2.0 * a * Total(s) + |s| as real * a * a
  {
    if |s| > 0 {
      var p, x := s[..|s| - 1], s[|s| - 1];
      SquaredDeviationsExpand(p, a);
      ExpandStep(SquaredDeviations(p, a), SumOfSquares(p), Total(p), |p| as real,
                 SquaredDeviations(s, a), SumOfSquares(s), Total(s), |s| as real, a, x);
    }
  }

  /** The polynomial identity behind one step of `SquaredDeviationsExpand`. */
  lemma ExpandStep(d: real, q: real, t: real, n: real,
                   d': real, q': real, t': real, n': real, a: real, x: real)
    requires d == q - 2.0 * a * t + n * a * a
    requires d' == d + (x - a) * (x - a) && q' == q + x * x && t' == t + x && n' == n + 1.0
    ensures d' == q' - 2.0 * a * t' + n' * a * a
  {
  }

  lemma {:induction false} SquaredDeviationsNonNegative(s: seq<real>, a: real)
    ensures SquaredDeviations(s, a) >= 0.0
  {
    if |s| > 0 {
      SquaredDeviationsNonNegative(s[..|s| - 1], a);
      SquareNonNegative(s[|s| - 1] - a);
    }
  }

  lemma SquareNonNegative(y: real)
    ensures y * y >= 0.0
  {
  }

  /** The population variance is never negative. */
  lemma VarianceNonNegative(s: seq<real>)
    requires |s| > 0
    ensures PopulationVariance(s) >= 0.0
  {
    var m := Mean(s);
    SquaredDeviationsNonNegative(s, m);
    NonNegativeQuotient(SquaredDeviations(s, m), |s| as real);
  }

  lemma NonNegativeQuotient(d: real, n: real)
    requires d >= 0.0 && n > 0.0
    ensures d / n >= 0.0
  {
  }

  /** The variance the engine computes agrees with the textbook alternative:
      for the mean `m` of the samples (the `m` with `m·n = Σx`),
      Σ(x - m)²/n = Σx²/n - m², and it is never negative. */
  lemma VarianceIsMeanSquareMinusSquaredMean(s: seq<real>, m: real)
    requires |s| > 0 && m * (|s| as real) == Total(s)
    ensures SquaredDeviations(s, m) / |s| as real == SumOfSquares(s) / |s| as real - m * m
    ensures SquaredDeviations(s, m) / |s| as real >= 0.0
  {
    SquaredDeviationsExpand(s, m);
    SquaredDeviationsNonNegative(s, m);
    MeanStep(SquaredDeviations(s, m), SumOfSquares(s), Total(s), |s| as real, m);
  }

  /** The arithmetic behind `VarianceIsMeanSquareMinusSquaredMean`. */
  lemma MeanStep(d: real, q: real, t: real, n: real, m: real)
    requires n > 0.0 && m * n == t && d >= 0.0
    requires d == q - 2.0 * m * t + n * m * m
    ensures d / n == q / n - m * m && d / n >= 0.0
  {
    assert d == q - n * m * m;
  }

  // ---------------------------------------------------------------------------
  // Sorting with the comparator, and the median

  /** Ascending: every earlier element compares at most equal to a later one. */
  ghost predicate Sorted(s: seq<real>) {
    forall i, j :: 0 <= i < j < |s| ==> s[i] <= s[j]
  }

  /** Insert `x` before the first element it does not compare above. */
  function Insert(x: real, r: seq<real>): (o: seq<real>)
    requires Sorted(r)
    ensures Sorted(o)
    ensures multiset(o) == multiset(r) + multiset{x}
  {
    if |r| == 0 then [x]
    else if Compare(x, r[0]) <= 0 then [x] + r
    else
      var tail := Insert(x, r[1..]);
      assert r == [r[0]] + r[1..];
      HeadBelowInsert(x, r, tail);
      [r[0]] + tail
  }

  /** The head of `r` lies below everything `x` is inserted into its tail with,
      when `x` compares above it. */
  lemma HeadBelowInsert(x: real, r: seq<real>, tail: seq<real>)
    requires Sorted(r) && |r| > 0 && r[0] < x
    requires multiset(tail) == multiset(r[1..]) + multiset{x}
    ensures forall i :: 0 <= i < |tail| ==> r[0] <= tail[i]
  {
    forall i | 0 <= i < |tail|
      ensures r[0] <= tail[i]
    {
      assert tail[i] in multiset(tail);
      if tail[i] != x {
        assert tail[i] in multiset(r[1..]);
        var k :| 0 <= k < |r[1..]| && r[1..][k] == tail[i];
        assert r[k + 1] == tail[i];
      }
    }
  }

  /** The ascending order `qsort` produces with `kdb_compare_values`. */
  function Sort(s: seq<real>): (r: seq<real>)
    ensures Sorted(r)
    ensures multiset(r) == multiset(s)
  {
    if |s| == 0 then []
    else
      assert s == [s[0]] + s[1..];
      Insert(s[0], Sort(s[1..]))
  }

  /** There is one ascending arrangement of a multiset of reals: whatever
      algorithm sorts the samples, the sorted sequence is the same. */
  lemma {:induction false} SortedIsUnique(a: seq<real>, b: seq<real>)
    requires Sorted(a) && Sorted(b) && multiset(a) == multiset(b)
    ensures a == b
    decreases |a|
  {
    assert |a| == |multiset(a)| == |multiset(b)| == |b|;
    if |a| > 0 {
      var x, y := a[0], b[0];
      assert x in multiset(b) && y in multiset(a);
      HeadIsLeast(a, y);
      HeadIsLeast(b, x);
      assert x == y;
      TailMultiset(a);
      TailMultiset(b);
      SortedTail(a);
      SortedTail(b);
      SortedIsUnique(a[1..], b[1..]);
    }
  }

  lemma HeadIsLeast(a: seq<real>, y: real)
    requires Sorted(a) && y in a
    ensures a[0] <= y
  {
    var i :| 0 <= i < |a| && a[i] == y;
    assert i == 0 || a[0] <= a[i];
  }

  lemma TailMultiset(a: seq<real>)
    requires |a| > 0
    ensures multiset(a[1..]) == multiset(a) - multiset{a[0]}
  {
    assert a == [a[0]] + a[1..];
  }

  lemma SortedTail(a: seq<real>)
    requires Sorted(a) && |a| > 0
    ensures Sorted(a[1..])
  {
    forall i, j | 0 <= i < j < |a| - 1
      ensures a[1..][i] <= a[1..][j]
    {
      assert a[1..][i] == a[i + 1] && a[1..][j] == a[j + 1];
    }
  }

  /** The middle element of a sorted sequence, or the mean of the two middle
      elements when the length is even. */
  function MiddleOf(r: seq<real>): (m: real)
    requires |r| > 0
    ensures Sorted(r) ==> r[(|r| - 1) / 2] <= m <= r[|r| / 2]
  {
    if |r| % 2 == 0 then (r[|r| / 2 - 1] + r[|r| / 2]) / 2.0 else r[|r| / 2]
  }

  function Median(s: seq<real>): real
    requires |s| > 0
  {
    MiddleOf(Sort(s))
  }

  /** How many samples lie strictly below / strictly above `m`. */
  function Below(s: seq<real>, m: real): nat {
    if |s| == 0 then 0 else (if s[0] < m then 1 else 0) + Below(s[1..], m)
  }

  function Above(s: seq<real>, m: real): nat {
    if |s| == 0 then 0 else (if s[0] > m then 1 else 0) + Above(s[1..], m)
  }

  lemma {:induction false} InsertKeepsCounts(x: real, r: seq<real>, m: real)
    requires Sorted(r)
    ensures Below(Insert(x, r), m) == Below([x], m) + Below(r, m)
    ensures Above(Insert(x, r), m) == Above([x], m) + Above(r, m)
  {
    var o := Insert(x, r);
    if |r| == 0 {
      assert o == [x];
    } else if Compare(x, r[0]) <= 0 {
      assert o == [x] + r;
      assert o[0] == x && o[1..] == r;
    } else {
      var tail := Insert(x, r[1..]);
      assert o == [r[0]] + tail;
      assert o[0] == r[0] && o[1..] == tail;
      InsertKeepsCounts(x, r[1..], m);
    }
  }

  lemma {:induction false} SortKeepsCounts(s: seq<real>, m: real)
    ensures Below(Sort(s), m) == Below(s, m)
    ensures Above(Sort(s), m) == Above(s, m)
  {
    if |s| > 0 {
      SortKeepsCounts(s[1..], m);
      InsertKeepsCounts(s[0], Sort(s[1..]), m);
    }
  }

  /** If nothing from index `k` on is below `m`, at most `k` elements are. */
  lemma {:induction false} BelowBound(r: seq<real>, m: real, k: nat)
    requires forall i :: k <= i < |r| ==> m <= r[i]
    ensures Below(r, m) <= k
  {
    if |r| > 0 {
      BelowBound(r[1..], m, if k == 0 then 0 else k - 1);
    }
  }

  /** If nothing before index `k` is above `m`, at most `|r| - k` elements are. */
  lemma {:induction false} AboveBound(r: seq<real>, m: real, k: nat)
    requires k <= |r|
    requires forall i :: 0 <= i < k ==> r[i] <= m
    ensures Above(r, m) <= |r| - k
  {
    if |r| > 0 {
      AboveBound(r[1..], m, if k == 0 then 0 else k - 1);
    }
  }

  /** The middle of a sorted sequence splits it in halves. */
  lemma MiddleSplits(r: seq<real>)
    requires Sorted(r) && |r| > 0
    ensures Below(r, MiddleOf(r)) <= |r| / 2
    ensures Above(r, MiddleOf(r)) <= |r| / 2
  {
    var n, k := |r|, |r| / 2;
    var m := MiddleOf(r);
    if n % 2 == 0 {
      assert r[k - 1] <= m <= r[k];
      BelowBound(r, m, k);
      AboveBound(r, m, k);
    } else {
      assert m == r[k];
      BelowBound(r, m, k);
      AboveBound(r, m, k + 1);
    }
  }

  /** The median splits the samples in halves: at most half of them lie strictly
      below it and at most half strictly above it. */
  lemma MedianSplitsSamples(s: seq<real>)
    requires |s| > 0
    ensures Below(s, Median(s)) <= |s| / 2
    ensures Above(s, Median(s)) <= |s| / 2
  {
    var r := Sort(s);
    assert |r| == |s| by { assert |multiset(r)| == |multiset(s)|; }
    MiddleSplits(r);
    SortKeepsCounts(s, Median(s));
  }

}
