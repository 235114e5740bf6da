/**
 Order-free statistics over a column of exact real numbers: sums and means,
 minimum and maximum, counts of values related to a pivot, an insertion sort,
 and the "higher" quantile that selects an element of the sorted column by
 rank instead of interpolating between two neighbours.
 */
module Stats {

  /* ---------------------------------------------------------------------
     Sums and means
     --------------------------------------------------------------------- */

  /** The sum of a column, folded from the front. */
  function Sum(s: seq<real>): real
  {
    if |s| == 0 then 0.0 else s[0] + Sum(s[1..])
  }

  /** The smallest value of a non-empty column. */
  function Min(s: seq<real>): (m: real)
    requires |s| > 0
    ensures m in s
    ensures forall i | 0 <= i < |s| :: m <= s[i]
  {
    if |s| == 1 then s[0]
    else
      var t := Min(s[1..]);
      if s[0] <= t then s[0] else t
  }

  /** The largest value of a non-empty column. */
  function Max(s: seq<real>): (m: real)
    requires |s| > 0
    ensures m in s
    ensures forall i | 0 <= i < |s| :: s[i] <= m
  {
    if |s| == 1 then s[0]
    else
      var t := Max(s[1..]);
      if s[0] >= t then s[0] else t
  }

  /** Every value at least `lo` makes the sum at least `|s| * lo`; every value
      at most `hi` makes it at most `|s| * hi`. */
  lemma {:induction false} SumBounds(s: seq<real>, lo: real, hi: real)
    requires forall i | 0 <= i < |s| :: lo <= s[i] <= hi
    ensures (|s| as real) * lo <= Sum(s) <= (|s| as real) * hi
  {
    if |s| > 0 {
      SumBounds(s[1..], lo, hi);
    }
  }

  /** Dividing by a positive `n` keeps a value between `n * lo` and
      `n * hi` between `lo` and `hi`. */
  lemma DivideBounds(a: real, n: real, lo: real, hi: real)
    requires n > 0.0 && n * lo <= a <= n * hi
    ensures lo <= a / n <= hi
  {
    assert a / n - lo == (a - n * lo) / n;
    assert hi - a / n == (n * hi - a) / n;
  }

  /** The arithmetic mean of a non-empty column lies between its minimum and
      its maximum. */
  function Mean(s: seq<real>): (r: real)
    requires |s| > 0
    ensures Min(s) <= r <= Max(s)
  {
    MeanBetween(s, Min(s), Max(s));
    Sum(s) / (|s| as real)
  }

  /** Values between `lo` and `hi` average to a value between them. */
  lemma MeanBetween(s: seq<real>, lo: real, hi: real)
    requires |s| > 0
    requires forall i | 0 <= i < |s| :: lo <= s[i] <= hi
    ensures lo <= Sum(s) / (|s| as real) <= hi
  {
    SumBounds(s, lo, hi);
    DivideBounds(Sum(s), |s| as real, lo, hi);
  }

  lemma {:induction false} SumAppend(a: seq<real>, b: seq<real>)
    ensures Sum(a + b) == Sum(a) + Sum(b)
  {
    if |a| == 0 {
      assert a + b == b;
    } else {
      assert (a + b)[1..] == a[1..] + b;
      SumAppend(a[1..], b);
    }
  }

  /** Removing the value at position `i` takes exactly that value off the sum. */
  lemma SumRemove(s: seq<real>, i: nat)
    requires i < |s|
    ensures Sum(s) == s[i] + Sum(s[..i] + s[i + 1..])
  {
    assert s == s[..i] + s[i..];
    SumAppend(s[..i], s[i..]);
    assert s[i..][1..] == s[i + 1..];
    SumAppend(s[..i], s[i + 1..]);
  }

  /** When `b` rearranges `a`, the first value of `a` sits at some position `i`
      of `b`, and the rest of `a` rearranges `b` without that position. */
  lemma PermutationTail<T>(a: seq<T>, b: seq<T>) returns (i: nat)
    requires |a| > 0 && multiset(a) == multiset(b)
    ensures i < |b| && b[i] == a[0]
    ensures multiset(a[1..]) == multiset(b[..i] + b[i + 1..])
  {
    assert a == [a[0]] + a[1..];
    assert a[0] in multiset(b);
    i :| 0 <= i < |b| && b[i] == a[0];
    assert b == b[..i] + [b[i]] + b[i + 1..];
    assert multiset(b) == multiset(b[..i]) + multiset{b[i]} + multiset(b[i + 1..]);
    assert multiset(b[..i] + b[i + 1..]) == multiset(b[..i]) + multiset(b[i + 1..]);
    assert multiset(a) == multiset{a[0]} + multiset(a[1..]);
    assert multiset(a[1..]) == multiset(a) - multiset{a[0]};
    assert multiset(b[..i] + b[i + 1..]) == multiset(b) - multiset{b[i]};
  }

  /** Reordering a column does not change its sum. */
  lemma {:induction false} SumPermutation(a: seq<real>, b: seq<real>)
    requires multiset(a) == multiset(b)
    ensures Sum(a) == Sum(b)
  {
    if |a| == 0 {
      assert |b| == |multiset(b)| == 0;
    } else {
      var i := PermutationTail(a, b);
      var rest := b[..i] + b[i + 1..];
      SumPermutation(a[1..], rest);
      SumRemove(b, i);
    }
  }

  /** Reordering a non-empty column does not change its mean. */
  lemma MeanPermutation(a: seq<real>, b: seq<real>)
    requires |a| > 0
    requires multiset(a) == multiset(b)
    ensures |b| > 0 && Mean(a) == Mean(b)
  {
    assert |a| == |multiset(a)| == |multiset(b)| == |b|;
    SumPermutation(a, b);
  }

  /* ---------------------------------------------------------------------
     Counting values against a pivot
     --------------------------------------------------------------------- */

  /** The three comparisons against a pivot that the statistics use. */
  datatype Rel = AtLeast | Below | AtMost

  predicate Holds(rel: Rel, x: real, v: real)
  {
    match rel
    case AtLeast => x >= v
    case Below => x < v
    case AtMost => x <= v
  }

  /** How many values of the column stand in relation `rel` to the pivot `v`. */
  function Count(s: seq<real>, rel: Rel, v: real): (c: nat)
    ensures c <= |s|
  {
    if |s| == 0 then 0
    else (if Holds(rel, s[0], v) then 1 else 0) + Count(s[1..], rel, v)
  }

  lemma {:induction false} CountAppend(a: seq<real>, b: seq<real>, rel: Rel, v: real)
    ensures Count(a + b, rel, v) == Count(a, rel, v) + Count(b, rel, v)
  {
    if |a| == 0 {
      assert a + b == b;
    } else {
      assert (a + b)[1..] == a[1..] + b;
      CountAppend(a[1..], b, rel, v);
    }
  }

  lemma CountRemove(s: seq<real>, i: nat, rel: Rel, v: real)
    requires i < |s|
    ensures Count(s, rel, v)
         == (if Holds(rel, s[i], v) then 1 else 0) + Count(s[..i] + s[i + 1..], rel, v)
  {
    assert s == s[..i] + s[i..];
    CountAppend(s[..i], s[i..], rel, v);
    assert s[i..][1..] == s[i + 1..];
    CountAppend(s[..i], s[i + 1..], rel, v);
  }

  /** Reordering a column does not change any count. */
  lemma {:induction false} CountPermutation(a: seq<real>, b: seq<real>, rel: Rel, v: real)
    requires multiset(a) == multiset(b)
    ensures Count(a, rel, v) == Count(b, rel, v)
  {
    if |a| == 0 {
      assert |b| == |multiset(b)| == 0;
    } else {
      var i := PermutationTail(a, b);
      var rest := b[..i] + b[i + 1..];
      CountPermutation(a[1..], rest, rel, v);
      CountRemove(b, i, rel, v);
    }
  }

  /** A column with every value in relation to the pivot counts all of them. */
  lemma {:induction false} CountAll(s: seq<real>, rel: Rel, v: real)
    requires forall i | 0 <= i < |s| :: Holds(rel, s[i], v)
    ensures Count(s, rel, v) == |s|
  {
    if |s| > 0 {
      CountAll(s[1..], rel, v);
    }
  }

  /** A column with no value in relation to the pivot counts none. */
  lemma {:induction false} CountNone(s: seq<real>, rel: Rel, v: real)
    requires forall i | 0 <= i < |s| :: !Holds(rel, s[i], v)
    ensures Count(s, rel, v) == 0
  {
    if |s| > 0 {
      CountNone(s[1..], rel, v);
    }
  }

  /** Every value is either below the pivot or at least the pivot, never both. */
  lemma {:induction false} CountAtLeastBelow(s: seq<real>, v: real)
    ensures Count(s, AtLeast, v) + Count(s, Below, v) == |s|
  {
    if |s| > 0 {
      CountAtLeastBelow(s[1..], v);
    }
  }

  /** Raising the pivot never increases the number of values at least the
      pivot. */
  lemma {:induction false} CountAtLeastAntitone(s: seq<real>, v: real, w: real)
    requires v <= w
    ensures Count(s, AtLeast, w) <= Count(s, AtLeast, v)
  {
    if |s| > 0 {
      CountAtLeastAntitone(s[1..], v, w);
    }
  }

  /** Every value at most `v` is below any larger pivot `w`. */
  lemma {:induction false} CountAtMostBelow(s: seq<real>, v: real, w: real)
    requires v < w
    ensures Count(s, AtMost, v) <= Count(s, Below, w)
  {
    if |s| > 0 {
      CountAtMostBelow(s[1..], v, w);
    }
  }

  /* ---------------------------------------------------------------------
     Sorting
     --------------------------------------------------------------------- */

  predicate Sorted(s: seq<real>)
  {
    forall i, j | 0 <= i < j < |s| :: s[i] <= s[j]
  }

  /** Inserts `x` into a sorted column, keeping it sorted. */
  function Insert(x: real, s: seq<real>): (r: seq<real>)
    requires Sorted(s)
    ensures Sorted(r)
    ensures multiset(r) == multiset(s) + multiset{x}
  {
    if |s| == 0 then [x]
    else if x <= s[0] then [x] + s
    else
      var t := Insert(x, s[1..]);
      assert s == [s[0]] + s[1..];
      assert forall k | 0 <= k < |t| :: s[0] <= t[k] by {
        forall k | 0 <= k < |t|
          ensures s[0] <= t[k]
        {
          assert t[k] in multiset(t);
          assert t[k] in multiset(s[1..]) || t[k] == x;
        }
      }
      [s[0]] + t
  }

  /** Insertion sort: a sorted rearrangement of the column. */
  function Sort(s: seq<real>): (r: seq<real>)
    ensures Sorted(r)
    ensures multiset(r) == multiset(s)
  {
    if |s| == 0 then []
    else
      assert s == [s[0]] + s[1..];
      Insert(s[0], Sort(s[1..]))
  }

  /** A column has exactly one sorted rearrangement. */
  lemma {:induction false} SortedUnique(a: seq<real>, b: seq<real>)
    requires Sorted(a) && Sorted(b)
    requires multiset(a) == multiset(b)
    ensures a == b
  {
    if |a| == 0 {
      assert |b| == |multiset(b)| == 0;
    } else {
      assert |b| == |multiset(b)| == |multiset(a)| == |a|;
      SortedHeadIsLeast(a, b);
      SortedHeadIsLeast(b, a);
      assert a == [a[0]] + a[1..];
      assert b == [b[0]] + b[1..];
      assert multiset(a[1..]) == multiset(a) - multiset{a[0]};
      assert multiset(b[1..]) == multiset(b) - multiset{b[0]};
      SortedUnique(a[1..], b[1..]);
    }
  }

  /** The head of a sorted column is at most every value of any rearrangement. */
  lemma SortedHeadIsLeast(a: seq<real>, b: seq<real>)
    requires Sorted(a) && |b| > 0
    requires multiset(a) == multiset(b)
    ensures |a| > 0 && a[0] <= b[0]
  {
    assert b[0] in multiset(a);
    var j :| 0 <= j < |a| && a[j] == b[0];
  }

  /** Reordering a column does not change its sorted form. */
  lemma SortPermutation(a: seq<real>, b: seq<real>)
    requires multiset(a) == multiset(b)
    ensures Sort(a) == Sort(b)
  {
    SortedUnique(Sort(a), Sort(b));
  }

  /* ---------------------------------------------------------------------
     Selection by rank and the 95th percentile with the "higher" rule
     --------------------------------------------------------------------- */

  /** `v` is the `k`-th smallest value of `s` (0-based): at most `k` values lie
      below it and more than `k` lie at or below it. */
  ghost predicate IsOrderStatistic(s: seq<real>, k: nat, v: real)
  {
    Count(s, Below, v) <= k < Count(s, AtMost, v)
  }

  /** In a sorted column the value at position `k` is the `k`-th smallest. */
  lemma SortedOrderStatistic(t: seq<real>, k: nat)
    requires Sorted(t) && k < |t|
    ensures IsOrderStatistic(t, k, t[k])
  {
    assert t == t[..k] + t[k..];
    CountAppend(t[..k], t[k..], Below, t[k]);
    CountNone(t[k..], Below, t[k]);
    assert t == t[..k + 1] + t[k + 1..];
    CountAppend(t[..k + 1], t[k + 1..], AtMost, t[k]);
    CountAll(t[..k + 1], AtMost, t[k]);
  }

  /** The `k`-th smallest value of a column is determined uniquely. */
  lemma OrderStatisticUnique(s: seq<real>, k: nat, v: real, w: real)
    requires IsOrderStatistic(s, k, v) && IsOrderStatistic(s, k, w)
    ensures v == w
  {
    if v < w {
      CountAtMostBelow(s, v, w);
    } else if w < v {
      CountAtMostBelow(s, w, v);
    }
  }

  /** The value of rank `k` (0-based) in the sorted column; always one of the
      column's own values, never an interpolation. */
  function SelectRank(s: seq<real>, k: nat): (v: real)
    requires k < |s|
    ensures v in s
    ensures IsOrderStatistic(s, k, v)
  {
    var t := Sort(s);
    assert |t| == |multiset(t)| == |s|;
    assert t[k] in multiset(s) by {
      assert t[k] in multiset(t);
    }
    SortedOrderStatistic(t, k);
    CountPermutation(t, s, Below, t[k]);
    CountPermutation(t, s, AtMost, t[k]);
    t[k]
  }

  /** A value is the `k`-th smallest if and only if rank selection returns it. */
  lemma SelectRankCharacterization(s: seq<real>, k: nat, v: real)
    requires k < |s|
    ensures IsOrderStatistic(s, k, v) <==> v == SelectRank(s, k)
  {
    if IsOrderStatistic(s, k, v) {
      OrderStatisticUnique(s, k, v, SelectRank(s, k));
    }
  }

  /** Reordering a column does not change the value of any rank. */
  lemma SelectRankPermutation(a: seq<real>, b: seq<real>, k: nat)
    requires k < |a|
    requires multiset(a) == multiset(b)
    ensures k < |b| && SelectRank(a, k) == SelectRank(b, k)
  {
    assert |a| == |multiset(a)| == |multiset(b)| == |b|;
    SortPermutation(a, b);
  }

  /** The rank the "higher" rule selects for the 95th percentile of `n`
      values: the ceiling of `0.95 * (n - 1)`, computed exactly. */
  function P95Rank(n: nat): (k: nat)
    requires n > 0
    ensures k < n
    ensures 95 * (n - 1) <= 100 * k < 95 * (n - 1) + 100
  {
    (95 * (n - 1) + 99) / 100
  }

  /** The 95th percentile with the "higher" rule. */
  function P95(s: seq<real>): (v: real)
    requires |s| > 0
    ensures v in s
    ensures Min(s) <= v <= Max(s)
    ensures IsOrderStatistic(s, P95Rank(|s|), v)
  {
    SelectRank(s, P95Rank(|s|))
  }

  /** At least 95% of the values lie at or below the 95th percentile, and
      every value from its rank upward lies at or above it. */
  lemma {:induction false} P95Coverage(s: seq<real>)
    requires |s| > 0
    ensures 95 * |s| <= 100 * Count(s, AtMost, P95(s))
    ensures Count(s, AtLeast, P95(s)) >= |s| - P95Rank(|s|)
  {
    CountAtLeastBelow(s, P95(s));
  }

  /** Reordering a column does not change its 95th percentile. */
  lemma P95Permutation(a: seq<real>, b: seq<real>)
    requires |a| > 0
    requires multiset(a) == multiset(b)
    ensures |b| > 0 && P95(a) == P95(b)
  {
    SelectRankPermutation(a, b, P95Rank(|a|));
  }
}
