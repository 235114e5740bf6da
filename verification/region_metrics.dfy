/**
 The per-region metrics of the latency service: for the observations of one
 region and a latency threshold, the mean latency, the 95th-percentile latency
 with the "higher" rule, the mean uptime and the number of breaches (latencies
 at or above the threshold). An empty region yields the all-zero record.
 */
module RegionMetrics {
  import opened Stats
  import opened Rounding

  /** One record of the dataset. */
  datatype Obs = Obs(region: string, latency: real, uptime: real)

  /** The two numeric columns of a record. */
  datatype Field = LatencyMs | UptimePct

  function Value(o: Obs, f: Field): real
  {
    match f
    case LatencyMs => o.latency
    case UptimePct => o.uptime
  }

  /** One numeric column of a list of records, in record order. */
  function Column(obs: seq<Obs>, f: Field): (c: seq<real>)
    ensures |c| == |obs|
    ensures forall i | 0 <= i < |obs| :: c[i] == Value(obs[i], f)
  {
    if |obs| == 0 then [] else [Value(obs[0], f)] + Column(obs[1..], f)
  }

  lemma {:induction false} ColumnAppend(a: seq<Obs>, b: seq<Obs>, f: Field)
    ensures Column(a + b, f) == Column(a, f) + Column(b, f)
  {
    if |a| == 0 {
      assert a + b == b;
    } else {
      assert (a + b)[1..] == a[1..] + b;
      ColumnAppend(a[1..], b, f);
    }
  }

  /** Reordering the records leaves each numeric column with the same
      values: the latency column keeps its multiset, and so does the uptime
      column. */
  lemma {:induction false} ColumnPermutation(a: seq<Obs>, b: seq<Obs>, f: Field)
    requires multiset(a) == multiset(b)
    ensures multiset(Column(a, f)) == multiset(Column(b, f))
  {
    if |a| == 0 {
      assert |b| == |multiset(b)| == 0;
    } else {
      var i := PermutationTail(a, b);
      var rest := b[..i] + b[i + 1..];
      ColumnPermutation(a[1..], rest, f);
      assert b == b[..i] + [b[i]] + b[i + 1..];
      ColumnAppend(b[..i] + [b[i]], b[i + 1..], f);
      ColumnAppend(b[..i], [b[i]], f);
      ColumnAppend(b[..i], b[i + 1..], f);
      assert Column(a, f) == [Value(a[0], f)] + Column(a[1..], f);
    }
  }

  /** The metrics record of one region. */
  datatype Metrics = Metrics(avgLatency: real, p95Latency: real, avgUptime: real, breaches: nat)

  /** The record reported for a region without observations. */
  const Zero := Metrics(0.0, 0.0, 0.0, 0)

  /** The number of records whose latency is at or above the threshold: the
      records not counted are exactly those below it. */
  function Breaches(obs: seq<Obs>, threshold: real): (n: nat)
    ensures n <= |obs|
    ensures n + Count(Column(obs, LatencyMs), Below, threshold) == |obs|
  {
    CountAtLeastBelow(Column(obs, LatencyMs), threshold);
    Count(Column(obs, LatencyMs), AtLeast, threshold)
  }

  /** The statistics of a non-empty region before rounding: each mean lies
      between the smallest and the largest value of its column, the
      percentile is the value of rank ceil(0.95 * (n - 1)) among the
      latencies, and the breaches are the latencies at or above the
      threshold. */
  function RawMetrics(obs: seq<Obs>, threshold: real): (m: Metrics)
    requires |obs| > 0
    ensures Min(Column(obs, LatencyMs)) <= m.avgLatency <= Max(Column(obs, LatencyMs))
    ensures m.p95Latency in Column(obs, LatencyMs)
    ensures IsOrderStatistic(Column(obs, LatencyMs), P95Rank(|obs|), m.p95Latency)
    ensures Min(Column(obs, UptimePct)) <= m.avgUptime <= Max(Column(obs, UptimePct))
    ensures m.breaches <= |obs|
    ensures m.breaches + Count(Column(obs, LatencyMs), Below, threshold) == |obs|
  {
    var latencies := Column(obs, LatencyMs);
    Metrics(Mean(latencies), P95(latencies), Mean(Column(obs, UptimePct)),
            Breaches(obs, threshold))
  }

  /** `r` has no digits beyond the place that `scale` moves in front of the
      point, and is the point of that grid nearest to `x`, the even one on a
      tie. */
  ghost predicate RoundsTo(x: real, r: real, scale: real)
  {
    && (r * scale).Floor as real == r * scale
    && IsNearestEven(x * scale, (r * scale).Floor)
  }

  /** A rounded value is the nearest point, ties to even, of the grid of its
      number of decimal places. */
  lemma RoundedOnGrid(x: real, digits: nat)
    ensures RoundsTo(x, RoundTo(x, digits), Scale(digits))
  {
    RoundToSpec(x, digits);
    var k := RoundHalfEven(x * Scale(digits));
    assert (k as real).Floor == k;
  }

  /** The reported metrics: latencies rounded to 2 decimal places, uptime to
      3, half to even. Rounding moves each latency by at most half a unit of
      its second decimal place and the uptime by at most half a unit of its
      third; the breach count is not rounded. */
  function Rounded(m: Metrics): (r: Metrics)
    ensures -0.5 <= m.avgLatency * 100.0 - r.avgLatency * 100.0 <= 0.5
    ensures -0.5 <= m.p95Latency * 100.0 - r.p95Latency * 100.0 <= 0.5
    ensures -0.5 <= m.avgUptime * 1000.0 - r.avgUptime * 1000.0 <= 0.5
    ensures r.breaches == m.breaches
  {
    Metrics(RoundTo(m.avgLatency, 2), RoundTo(m.p95Latency, 2), RoundTo(m.avgUptime, 3), m.breaches)
  }

  /** Each reported latency is the point of the two-decimal grid nearest to
      its statistic, and the uptime the point of the three-decimal grid, the
      even one on a tie. */
  lemma RoundedToGrid(m: Metrics)
    ensures RoundsTo(m.avgLatency, Rounded(m).avgLatency, 100.0)
    ensures RoundsTo(m.p95Latency, Rounded(m).p95Latency, 100.0)
    ensures RoundsTo(m.avgUptime, Rounded(m).avgUptime, 1000.0)
  {
    RoundedOnGrid(m.avgLatency, 2);
    RoundedOnGrid(m.p95Latency, 2);
    RoundedOnGrid(m.avgUptime, 3);
  }

  /** The zero record is left unchanged by rounding, so returning its
      literal zeros without rounding them reports the same values. */
  lemma RoundedZero()
    ensures Rounded(Zero) == Zero
  {
    RoundToOnGrid(0.0, 2, 0);
    RoundToOnGrid(0.0, 3, 0);
  }

  /** The metrics of one region's observations: the all-zero record when
      there are none, otherwise the rounded statistics. */
  function CalculateRegionMetrics(obs: seq<Obs>, threshold: real): (m: Metrics)
    ensures |obs| == 0 ==> m == Zero
    ensures |obs| > 0 ==> m == Rounded(RawMetrics(obs, threshold))
    ensures m.breaches == Breaches(obs, threshold)
  {
    if |obs| == 0 then Zero
    else Rounded(RawMetrics(obs, threshold))
  }

  /** Breaches count exactly the records at or above the threshold: none
      when every latency is below it, all when every latency reaches it. */
  lemma BreachesExact(obs: seq<Obs>, threshold: real)
    ensures (forall i | 0 <= i < |obs| :: obs[i].latency < threshold)
            ==> Breaches(obs, threshold) == 0
    ensures (forall i | 0 <= i < |obs| :: obs[i].latency >= threshold)
            ==> Breaches(obs, threshold) == |obs|
  {
    var latencies := Column(obs, LatencyMs);
    if forall i | 0 <= i < |obs| :: obs[i].latency < threshold {
      CountNone(latencies, AtLeast, threshold);
    }
    if forall i | 0 <= i < |obs| :: obs[i].latency >= threshold {
      CountAll(latencies, AtLeast, threshold);
    }
  }

  /** One more record adds one breach when its latency reaches the threshold
      and none otherwise. */
  lemma BreachesAppend(obs: seq<Obs>, o: Obs, threshold: real)
    ensures Breaches(obs + [o], threshold)
         == Breaches(obs, threshold) + (if o.latency >= threshold then 1 else 0)
  {
    ColumnAppend(obs, [o], LatencyMs);
    CountAppend(Column(obs, LatencyMs), Column([o], LatencyMs), AtLeast, threshold);
  }

  /** Raising the threshold never increases the number of breaches. */
  lemma BreachesAntitone(obs: seq<Obs>, t1: real, t2: real)
    requires t1 <= t2
    ensures Breaches(obs, t2) <= Breaches(obs, t1)
  {
    CountAtLeastAntitone(Column(obs, LatencyMs), t1, t2);
  }

  /** At least 95% of a region's latencies lie at or below its unrounded
      95th percentile. */
  lemma P95CoversRegion(obs: seq<Obs>, threshold: real)
    requires |obs| > 0
    ensures 95 * |obs| <= 100 * Count(Column(obs, LatencyMs), AtMost, RawMetrics(obs, threshold).p95Latency)
  {
    P95Coverage(Column(obs, LatencyMs));
  }

  /** The metrics do not depend on the order of the records. */
  lemma MetricsPermutationInvariant(a: seq<Obs>, b: seq<Obs>, threshold: real)
    requires multiset(a) == multiset(b)
    ensures CalculateRegionMetrics(a, threshold) == CalculateRegionMetrics(b, threshold)
  {
    assert |a| == |multiset(a)| == |multiset(b)| == |b|;
    if |a| > 0 {
      ColumnPermutation(a, b, LatencyMs);
      ColumnPermutation(a, b, UptimePct);
      MeanPermutation(Column(a, LatencyMs), Column(b, LatencyMs));
      MeanPermutation(Column(a, UptimePct), Column(b, UptimePct));
      P95Permutation(Column(a, LatencyMs), Column(b, LatencyMs));
      CountPermutation(Column(a, LatencyMs), Column(b, LatencyMs), AtLeast, threshold);
    }
  }

  /** Latencies 100, 110, 120, 200 and 500: rank ceil(0.95 * 4) = 4 selects
      the largest value, 500. */
  lemma P95FiveValues()
    ensures P95([100.0, 110.0, 120.0, 200.0, 500.0]) == 500.0
  {
    var s := [100.0, 110.0, 120.0, 200.0, 500.0];
    assert P95Rank(5) == 4;
    assert Count(s, Below, 500.0) == 4;
    assert Count(s, AtMost, 500.0) == 5;
    SelectRankCharacterization(s, 4, 500.0);
  }
}
