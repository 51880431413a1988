/**
  * Latency statistics over a list of samples: least, greatest, average and
  * percentiles, read off a sorted copy.
  */
module Latency {
  import opened Bits

  /** Microseconds; the standard deviation of the original is not modelled. */
  datatype LatencyStats = LatencyStats(
    min: nat, max: nat, avg: nat, p50: nat, p90: nat, p95: nat, p99: nat, count: nat)

  const NO_STATS := LatencyStats(0, 0, 0, 0, 0, 0, 0, 0)

  ghost predicate Sorted(s: seq<nat>) {
    forall i, j :: 0 <= i < j < |s| ==> s[i] <= s[j]
  }

  function Insert(x: nat, s: seq<nat>): seq<nat> {
    if s == [] || x <= s[0] then [x] + s else [s[0]] + Insert(x, s[1..])
  }

  /** The sorted copy. */
  function Sort(s: seq<nat>): seq<nat> {
    if s == [] then [] else Insert(s[|s| - 1], Sort(s[..|s| - 1]))
  }

  function Sum(s: seq<nat>): nat {
    if s == [] then 0 else Sum(s[..|s| - 1]) + s[|s| - 1]
  }

  function Index(n: nat, p: nat): nat
    requires n > 0
  {
    if n * p / 100 < n - 1 then n * p / 100 else n - 1
  }

  function Percentile(sorted: seq<nat>, p: nat): nat {
    if sorted == [] then 0 else sorted[Index(|sorted|, p)]
  }

  /** The sum is taken in 64 bits. */
  function FromSorted(sorted: seq<nat>): LatencyStats {
    if sorted == [] then NO_STATS
    else
      LatencyStats(sorted[0], sorted[|sorted| - 1], Sum(sorted) % U64_RANGE / |sorted|,
                   Percentile(sorted, 50), Percentile(sorted, 90), Percentile(sorted, 95), Percentile(sorted, 99),
                   |sorted|)
  }

  method SortedCopy(samples: seq<nat>) returns (sorted: seq<nat>)
    ensures sorted == Sort(samples)
  {
    sorted := [];
    for i := 0 to |samples|
      invariant sorted == Sort(samples[..i])
    {
      sorted := Insert(samples[i], sorted);
      assert samples[..i + 1][..i] == samples[..i];
    }
    assert samples[..|samples|] == samples;
  }

  lemma WrapStep(a: nat, x: nat)
    ensures (a % U64_RANGE + x) % U64_RANGE == (a + x) % U64_RANGE
  {
  }

  method WrappedSum(s: seq<nat>) returns (sum: nat)
    ensures sum == Sum(s) % U64_RANGE
  {
    sum := 0;
    for i := 0 to |s|
      invariant sum == Sum(s[..i]) % U64_RANGE
    {
      assert s[..i + 1][..i] == s[..i];
      WrapStep(Sum(s[..i]), s[i]);
      sum := (sum + s[i]) % U64_RANGE;
    }
    assert s[..|s|] == s;
  }

  /** Sort a copy, add it up, read the fields. */
  method FromSamples(samples: seq<nat>) returns (stats: LatencyStats)
    ensures stats == FromSorted(Sort(samples))
    ensures samples == [] ==> stats == LatencyStats(0, 0, 0, 0, 0, 0, 0, 0)
    ensures samples != [] ==> Describes(samples, stats)
  {
    if samples == [] {
      return NO_STATS;
    }
    StatsDescribe(samples);
    var sorted := SortedCopy(samples);
    SortPermutes(samples);
    stats := Summary(sorted);
  }

  method Summary(sorted: seq<nat>) returns (stats: LatencyStats)
    requires sorted != []
    ensures stats == FromSorted(sorted)
  {
    var count := |sorted|;
    var sum := WrappedSum(sorted);
    stats := LatencyStats(sorted[0], sorted[count - 1], sum / count,
                          Percentile(sorted, 50), Percentile(sorted, 90), Percentile(sorted, 95),
                          Percentile(sorted, 99), count);
  }

  // ---------------------------------------------------------------------------
  // The sorted copy
  // ---------------------------------------------------------------------------

  lemma SortedCons(x: nat, s: seq<nat>)
    requires Sorted(s) && (s == [] || x <= s[0])
    ensures Sorted([x] + s)
  {
  }

  lemma {:induction false} InsertSorts(x: nat, s: seq<nat>)
    requires Sorted(s)
    ensures var r := Insert(x, s);
            Sorted(r) && r != [] && (r[0] == x || (s != [] && r[0] == s[0]))
  {
    if s == [] || x <= s[0] {
      SortedCons(x, s);
    } else {
      InsertSorts(x, s[1..]);
      SortedCons(s[0], Insert(x, s[1..]));
    }
  }

  lemma {:induction false} InsertPermutes(x: nat, s: seq<nat>)
    ensures multiset(Insert(x, s)) == multiset(s) + multiset{x}
  {
    if s != [] && x > s[0] {
      InsertPermutes(x, s[1..]);
      assert s == [s[0]] + s[1..];
    }
  }

  lemma {:induction false} SortPermutes(s: seq<nat>)
    ensures Sorted(Sort(s)) && multiset(Sort(s)) == multiset(s) && |Sort(s)| == |s|
  {
    if s != [] {
      var front, x := s[..|s| - 1], s[|s| - 1];
      SortPermutes(front);
      InsertSorts(x, Sort(front));
      InsertPermutes(x, Sort(front));
      assert s == front + [x];
      assert |multiset(Sort(s))| == |multiset(s)|;
    }
  }

  /** There is only one way to sort, so any sorting routine gives this copy. */
  lemma {:induction false} SortedUnique(s: seq<nat>, t: seq<nat>)
    requires Sorted(s) && Sorted(t) && multiset(s) == multiset(t)
    ensures s == t
  {
    assert |s| == |multiset(s)| == |multiset(t)| == |t|;
    if s != [] {
      SameHead(s, t);
      SameTail(s, t);
      SortedUnique(s[1..], t[1..]);
      assert s == [s[0]] + s[1..] && t == [t[0]] + t[1..];
    }
  }

  lemma SameHead(s: seq<nat>, t: seq<nat>)
    requires s != [] && t != [] && Sorted(s) && Sorted(t) && multiset(s) == multiset(t)
    ensures s[0] == t[0]
  {
    assert s[0] in multiset(t) && t[0] in multiset(s);
  }

  lemma SameTail(s: seq<nat>, t: seq<nat>)
    requires s != [] && t != [] && s[0] == t[0] && multiset(s) == multiset(t)
    ensures multiset(s[1..]) == multiset(t[1..])
  {
    assert s == [s[0]] + s[1..] && t == [t[0]] + t[1..];
    assert multiset(s[1..]) == multiset(s) - multiset{s[0]};
    assert multiset(t[1..]) == multiset(t) - multiset{t[0]};
  }

  /** No statistic depends on the order the samples came in. */
  lemma OrderIrrelevant(s: seq<nat>, t: seq<nat>)
    requires multiset(s) == multiset(t)
    ensures FromSorted(Sort(s)) == FromSorted(Sort(t))
  {
    SortPermutes(s);
    SortPermutes(t);
    SortedUnique(Sort(s), Sort(t));
  }

  // ---------------------------------------------------------------------------
  // Percentiles are quantiles
  // ---------------------------------------------------------------------------

  function CountAtMost(s: seq<nat>, r: int): nat {
    if s == [] then 0 else CountAtMost(s[..|s| - 1], r) + if s[|s| - 1] <= r then 1 else 0
  }

  /** More than p percent of the samples are at most `r`, and at most p percent are below it. */
  predicate Quantile(s: seq<nat>, p: nat, r: nat) {
    CountAtMost(s, r) * 100 > p * |s| && CountAtMost(s, r - 1) * 100 <= p * |s|
  }

  lemma {:induction false} CountInsert(x: nat, s: seq<nat>, r: int)
    ensures CountAtMost(Insert(x, s), r) == CountAtMost(s, r) + if x <= r then 1 else 0
  {
    if s == [] || x <= s[0] {
      CountCons(x, s, r);
    } else {
      CountInsert(x, s[1..], r);
      CountCons(s[0], Insert(x, s[1..]), r);
      CountCons(s[0], s[1..], r);
      assert s == [s[0]] + s[1..];
    }
  }

  lemma {:induction false} CountCons(x: nat, s: seq<nat>, r: int)
    ensures CountAtMost([x] + s, r) == CountAtMost(s, r) + if x <= r then 1 else 0
  {
    if s == [] {
      assert ([x] + s)[..0] == [];
    } else {
      CountCons(x, s[..|s| - 1], r);
      assert ([x] + s)[..|s|] == [x] + s[..|s| - 1];
    }
  }

  lemma {:induction false} CountSort(s: seq<nat>, r: int)
    ensures CountAtMost(Sort(s), r) == CountAtMost(s, r)
  {
    if s != [] {
      CountSort(s[..|s| - 1], r);
      CountInsert(s[|s| - 1], Sort(s[..|s| - 1]), r);
    }
  }

  lemma {:induction false} CountMonotone(s: seq<nat>, r: int, t: int)
    requires r <= t
    ensures CountAtMost(s, r) <= CountAtMost(s, t)
  {
    if s != [] {
      CountMonotone(s[..|s| - 1], r, t);
    }
  }

  /** In a sorted list, the first k samples are the ones counted when they and no others are at most r. */
  lemma {:induction false} CountPrefix(s: seq<nat>, k: nat, r: int)
    requires k <= |s|
    ensures (forall i :: 0 <= i < k ==> s[i] <= r) ==> k <= CountAtMost(s, r)
    ensures (forall i :: k <= i < |s| ==> s[i] > r) ==> CountAtMost(s, r) <= k
  {
    if s != [] {
      CountPrefix(s[..|s| - 1], if k < |s| then k else k - 1, r);
    }
  }

  lemma IndexIsShare(n: nat, p: nat)
    requires n > 0 && p < 100
    ensures Index(n, p) < n && Index(n, p) * 100 <= p * n < (Index(n, p) + 1) * 100
  {
    assert n * p == p * n;
    assert n * p < n * 100;
  }

  /**
    * For every non-empty sample list and every p below 100, the percentile is
    * the one value with more than p percent of the samples at most it and at
    * most p percent below it.
    */
  lemma PercentileIff(s: seq<nat>, p: nat, r: nat)
    requires s != [] && p < 100
    ensures r == Percentile(Sort(s), p) <==> Quantile(s, p, r)
  {
    PercentileIsQuantile(s, p);
    QuantileUnique(s, p, r, Percentile(Sort(s), p));
  }

  lemma PercentileIsQuantile(s: seq<nat>, p: nat)
    requires s != [] && p < 100
    ensures Quantile(s, p, Percentile(Sort(s), p))
  {
    SortPermutes(s);
    SortedQuantile(Sort(s), p);
    CountSort(s, Percentile(Sort(s), p));
    CountSort(s, Percentile(Sort(s), p) as int - 1);
  }

  lemma SortedQuantile(sorted: seq<nat>, p: nat)
    requires sorted != [] && Sorted(sorted) && p < 100
    ensures Quantile(sorted, p, Percentile(sorted, p))
  {
    var k := Index(|sorted|, p);
    IndexIsShare(|sorted|, p);
    CountAround(sorted, k);
  }

  /** In a sorted list, the k-th sample has more than k samples at most it, and no more than k below it. */
  lemma CountAround(sorted: seq<nat>, k: nat)
    requires k < |sorted| && Sorted(sorted)
    ensures CountAtMost(sorted, sorted[k] as int - 1) <= k < CountAtMost(sorted, sorted[k])
  {
    CountPrefix(sorted, k + 1, sorted[k]);
    CountPrefix(sorted, k, sorted[k] as int - 1);
  }

  lemma QuantileUnique(s: seq<nat>, p: nat, q: nat, r: nat)
    requires Quantile(s, p, r)
    ensures Quantile(s, p, q) ==> q == r
  {
    if q < r {
      CountMonotone(s, q, r - 1);
    } else if r < q {
      CountMonotone(s, r, q - 1);
    }
  }

  // ---------------------------------------------------------------------------
  // Order of the statistics
  // ---------------------------------------------------------------------------

  lemma IndexMonotone(n: nat, p: nat, q: nat)
    requires n > 0 && p <= q
    ensures Index(n, p) <= Index(n, q)
  {
    assert n * q == n * p + n * (q - p);
    assert n * p / 100 <= n * q / 100;
  }

  lemma PercentileMonotone(sorted: seq<nat>, p: nat, q: nat)
    requires sorted != [] && Sorted(sorted) && p <= q
    ensures sorted[0] <= Percentile(sorted, p) <= Percentile(sorted, q) <= sorted[|sorted| - 1]
  {
    IndexMonotone(|sorted|, p, q);
  }

  lemma {:induction false} SumBetween(s: seq<nat>, lo: nat, hi: nat)
    requires forall x :: x in s ==> lo <= x <= hi
    ensures |s| * lo <= Sum(s) <= |s| * hi
  {
    if s != [] {
      var front := s[..|s| - 1];
      assert forall x :: x in front ==> x in s;
      assert s[|s| - 1] in s;
      SumBetween(front, lo, hi);
      OneMore(|front|, lo);
      OneMore(|front|, hi);
    }
  }

  lemma OneMore(n: nat, x: nat)
    ensures (n + 1) * x == n * x + x
  {
  }

  lemma {:induction false} SumCons(x: nat, s: seq<nat>)
    ensures Sum([x] + s) == x + Sum(s)
  {
    if s == [] {
      assert ([x] + s)[..0] == [];
    } else {
      SumCons(x, s[..|s| - 1]);
      assert ([x] + s)[..|s|] == [x] + s[..|s| - 1];
    }
  }

  lemma {:induction false} SumInsert(x: nat, s: seq<nat>)
    ensures Sum(Insert(x, s)) == x + Sum(s)
  {
    if s == [] || x <= s[0] {
      SumCons(x, s);
    } else {
      SumInsert(x, s[1..]);
      SumCons(s[0], Insert(x, s[1..]));
      SumCons(s[0], s[1..]);
      assert s == [s[0]] + s[1..];
    }
  }

  lemma {:induction false} SumSort(s: seq<nat>)
    ensures Sum(Sort(s)) == Sum(s)
  {
    if s != [] {
      SumSort(s[..|s| - 1]);
      SumInsert(s[|s| - 1], Sort(s[..|s| - 1]));
    }
  }

  lemma QuotientBetween(n: nat, sum: nat, lo: nat, hi: nat)
    requires n > 0 && n * lo <= sum <= n * hi
    ensures lo <= sum / n <= hi
  {
    var q := sum / n;
    assert n * q <= sum < n * q + n;
    if q < lo {
      MulAtLeast(n, q, lo);
    } else if hi < q {
      MulAtLeast(n, hi, q);
    }
  }

  /** `min` and `max` are the extremes of the samples and everything else is ordered between them. */
  lemma StatsOrdered(s: seq<nat>)
    requires s != []
    ensures var st := FromSorted(Sort(s));
            && st.min in s && st.max in s
            && (forall x :: x in s ==> st.min <= x <= st.max)
            && st.min <= st.p50 <= st.p90 <= st.p95 <= st.p99 <= st.max
            && (Sum(s) < U64_RANGE ==> st.avg == Sum(s) / |s| && st.min <= st.avg <= st.max)
            && (Sum(s) >= U64_RANGE && |s| <= U64_RANGE ==> st.avg < Sum(s) / |s|)
            && st.count == |s|
  {
    SortPermutes(s);
    var sorted := Sort(s);
    ExtremesOf(s, sorted);
    PercentileMonotone(sorted, 50, 90);
    PercentileMonotone(sorted, 90, 95);
    PercentileMonotone(sorted, 95, 99);
    SumSort(s);
    if Sum(s) < U64_RANGE {
      AverageOf(sorted);
    } else if |s| <= U64_RANGE {
      WrappedMean(Sum(s), |s|);
    }
  }

  /** The average of a sum that wraps is too small. */
  lemma WrappedMean(sum: nat, n: nat)
    requires 0 < n <= U64_RANGE <= sum
    ensures sum % U64_RANGE / n < sum / n
  {
    var wrapped := sum % U64_RANGE;
    assert wrapped + n <= sum;
    DivideOneMore(wrapped, n);
    DivideGrows(wrapped + n, sum, n);
  }

  lemma Divided(p: nat, n: nat)
    requires n > 0
    ensures p / n * n <= p < p / n * n + n
  {
    var q := p / n;
    assert p == n * q + p % n;
    assert n * q == q * n;
  }

  lemma DivideOneMore(p: nat, n: nat)
    requires n > 0
    ensures (p + n) / n == p / n + 1
  {
    Divided(p, n);
    ModUnique(p + n, n, p / n + 1, p - n * (p / n));
  }

  lemma DivideGrows(p: nat, q: nat, n: nat)
    requires n > 0 && p <= q
    ensures p / n <= q / n
  {
    Divided(p, n);
    Divided(q, n);
    if q / n < p / n {
      MulAtLeast(n, q / n, p / n);
    }
  }

  /** What each field means, in terms of the samples as they came. */
  predicate Describes(s: seq<nat>, st: LatencyStats)
    requires s != []
  {
    && st.count == |s|
    && st.min in s && st.max in s && (forall x :: x in s ==> st.min <= x <= st.max)
    && st.avg == Sum(s) % U64_RANGE / |s|
    && Quantile(s, 50, st.p50) && Quantile(s, 90, st.p90) && Quantile(s, 95, st.p95) && Quantile(s, 99, st.p99)
  }

  lemma StatsDescribe(s: seq<nat>)
    requires s != []
    ensures Describes(s, FromSorted(Sort(s)))
  {
    SortPermutes(s);
    ExtremesOf(s, Sort(s));
    SumSort(s);
    PercentileIsQuantile(s, 50);
    PercentileIsQuantile(s, 90);
    PercentileIsQuantile(s, 95);
    PercentileIsQuantile(s, 99);
  }

  /** Nothing else can be said of the same samples. */
  lemma DescriptionUnique(s: seq<nat>, st: LatencyStats, other: LatencyStats)
    requires s != [] && Describes(s, st) && Describes(s, other)
    ensures st == other
  {
    QuantileUnique(s, 50, st.p50, other.p50);
    QuantileUnique(s, 90, st.p90, other.p90);
    QuantileUnique(s, 95, st.p95, other.p95);
    QuantileUnique(s, 99, st.p99, other.p99);
  }

  lemma ExtremesOf(s: seq<nat>, sorted: seq<nat>)
    requires s != [] && sorted != [] && Sorted(sorted) && multiset(sorted) == multiset(s)
    ensures sorted[0] in s && sorted[|sorted| - 1] in s
    ensures forall x :: x in s ==> sorted[0] <= x <= sorted[|sorted| - 1]
  {
    assert sorted[0] in multiset(s) && sorted[|sorted| - 1] in multiset(s);
    forall x | x in s ensures sorted[0] <= x <= sorted[|sorted| - 1] {
      assert x in multiset(sorted);
    }
  }

  lemma AverageOf(sorted: seq<nat>)
    requires sorted != [] && Sorted(sorted) && Sum(sorted) < U64_RANGE
    ensures FromSorted(sorted).avg == Sum(sorted) / |sorted|
    ensures sorted[0] <= FromSorted(sorted).avg <= sorted[|sorted| - 1]
  {
    var lo, hi, sum := sorted[0], sorted[|sorted| - 1], Sum(sorted);
    SumBetween(sorted, lo, hi);
    assert sum % U64_RANGE == sum;
    QuotientBetween(|sorted|, sum, lo, hi);
  }
}
