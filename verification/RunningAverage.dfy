/**
  * The running average of tick durations kept by a device: one integer, updated
  * with a truncating division at every tick.
  */
module RunningAverage {
  import opened Bits

  datatype Average = Average(ticks: nat, avg: nat)

  const START := Average(0, 0)

  /** A sum in 64 bits, which wraps, and its truncated share. */
  function Share(p: nat, n: nat): nat
    requires n > 0
  {
    p % U64_RANGE / n
  }

  function Ticked(a: Average, duration: nat): Average {
    Average(a.ticks + 1, Share(a.avg * a.ticks + duration, a.ticks + 1))
  }

  class DeviceStatistics {
    var ticksTotal: nat
    var avgTickDurationUs: nat

    function State(): Average
      reads this
    {
      Average(ticksTotal, avgTickDurationUs)
    }

    constructor ()
      ensures State() == START
    {
      ticksTotal, avgTickDurationUs := 0, 0;
    }

    method RecordTick(durationUs: nat)
      modifies this
      ensures State() == Ticked(old(State()), durationUs)
    {
      ticksTotal := ticksTotal + 1;
      var before := ticksTotal - 1;
      avgTickDurationUs := Share(avgTickDurationUs * before + durationUs, ticksTotal);
    }
  }

  function After(samples: seq<nat>): Average {
    if samples == [] then START
    else Ticked(After(samples[..|samples| - 1]), samples[|samples| - 1])
  }

  function Sum(samples: seq<nat>): nat {
    if samples == [] then 0 else Sum(samples[..|samples| - 1]) + samples[|samples| - 1]
  }

  lemma {:induction false} TicksCount(samples: seq<nat>)
    ensures After(samples).ticks == |samples|
  {
    if samples != [] {
      TicksCount(samples[..|samples| - 1]);
    }
  }

  // ---------------------------------------------------------------------------
  // Plain integers
  // ---------------------------------------------------------------------------

  /** `p` is n times an average of n samples that add up to `sum`: at most the sum, at least the sum less n(n-1)/2. */
  predicate Near(p: nat, n: nat, sum: nat) {
    p <= sum && 2 * sum <= 2 * p + n * (n - 1)
  }

  lemma Triangle(n: nat)
    ensures (n + 1) * n == n * (n - 1) + 2 * n
  {
  }

  lemma Division(p: nat, m: nat)
    requires m > 0
    ensures p / m * m <= p < p / m * m + m
  {
    var q := p / m;
    assert p == m * q + p % m;
    assert m * q == q * m;
  }

  /** Below the range nothing wraps: the share is the quotient. */
  lemma ShareFits(p: nat, m: nat)
    requires m > 0 && p < U64_RANGE
    ensures Share(p, m) * m <= p < Share(p, m) * m + m
  {
    assert p % U64_RANGE == p;
    Division(p, m);
  }

  /** From the range on the share is that of a smaller sum. */
  lemma ShareWraps(p: nat, m: nat)
    requires m > 0 && p >= U64_RANGE
    ensures Share(p, m) * m + U64_RANGE <= p
  {
    var wrapped := p % U64_RANGE;
    assert wrapped + U64_RANGE <= p;
    Division(wrapped, m);
  }

  lemma ProductUpTo(m: nat, x: int, y: nat)
    requires x <= y
    ensures m * x <= m * y
  {
    assert m * (y - x) >= 0;
    assert m * y == m * x + m * (y - x);
  }

  lemma SquareFits(m: nat)
    requires m <= 0x1_0000_0000
    ensures m * (m - 1) <= U64_RANGE
  {
    ProductUpTo(m, m - 1, 0x1_0000_0000);
  }

  /** One step from a near average is near again if it does not wrap, and, up to 2^32 ticks, only then. */
  lemma NearStep(p: nat, n: nat, sum: nat, d: nat)
    requires Near(p, n, sum)
    ensures p + d < U64_RANGE ==> Near(Share(p + d, n + 1) * (n + 1), n + 1, sum + d)
    ensures p + d >= U64_RANGE && n < 0x1_0000_0000 ==> !Near(Share(p + d, n + 1) * (n + 1), n + 1, sum + d)
  {
    Triangle(n);
    if p + d < U64_RANGE {
      ShareFits(p + d, n + 1);
    } else if n < 0x1_0000_0000 {
      ShareWraps(p + d, n + 1);
      SquareFits(n + 1);
    }
  }

  lemma ShareBetween(avg: nat, n: nat, d: nat, lo: nat, hi: nat)
    requires n == 0 || lo <= avg <= hi
    requires lo <= d <= hi && avg * n + d < U64_RANGE
    ensures lo <= Share(avg * n + d, n + 1) <= hi
  {
    var q, m := Share(avg * n + d, n + 1), n + 1;
    ShareFits(avg * n + d, m);
    SandwichProduct(avg, n, lo, hi);
    LinearBetween(avg * n + d, m, q, lo, hi);
  }

  lemma SandwichProduct(avg: nat, n: nat, lo: nat, hi: nat)
    requires n == 0 || lo <= avg <= hi
    ensures lo * n <= avg * n <= hi * n
    ensures lo * (n + 1) == lo * n + lo && hi * (n + 1) == hi * n + hi
  {
    assert n > 0 ==> (avg - lo) * n >= 0 && (hi - avg) * n >= 0;
  }

  lemma LinearBetween(p: nat, m: nat, q: nat, lo: nat, hi: nat)
    requires q * m <= p < q * m + m && lo * m <= p <= hi * m
    ensures lo <= q <= hi
  {
    if q < lo {
      MulAtLeast(m, q, lo);
    } else if hi < q {
      MulAtLeast(m, hi, q);
    }
  }

  // ---------------------------------------------------------------------------
  // Runs
  // ---------------------------------------------------------------------------

  /** The next tick does not wrap: something a caller can see before it. */
  predicate Fits(a: Average, duration: nat) {
    a.avg * a.ticks + duration < U64_RANGE
  }

  predicate StepFits(samples: seq<nat>, i: nat)
    requires i < |samples|
  {
    Fits(After(samples[..i]), samples[i])
  }

  predicate EveryStepFits(samples: seq<nat>) {
    forall i :: 0 <= i < |samples| ==> StepFits(samples, i)
  }

  /** The stored average is at most the mean and at least the mean less (n - 1) / 2. */
  predicate NearMean(samples: seq<nat>) {
    var a := After(samples);
    Near(a.avg * a.ticks, a.ticks, Sum(samples))
  }

  lemma NextNearMean(samples: seq<nat>, i: nat)
    requires i < |samples| && NearMean(samples[..i])
    ensures StepFits(samples, i) ==> NearMean(samples[..i + 1])
    ensures !StepFits(samples, i) && i < 0x1_0000_0000 ==> !NearMean(samples[..i + 1])
  {
    var a := After(samples[..i]);
    assert samples[..i + 1][..i] == samples[..i];
    TicksCount(samples[..i]);
    NearStep(a.avg * a.ticks, a.ticks, Sum(samples[..i]), samples[i]);
  }

  /** As long as no step wraps, the average stays near the mean, for any number of ticks. */
  lemma {:induction false} AverageNearMean(samples: seq<nat>, n: nat)
    requires n <= |samples| && EveryStepFits(samples)
    ensures NearMean(samples[..n])
  {
    if n > 0 {
      AverageNearMean(samples, n - 1);
      assert StepFits(samples, n - 1);
      NextNearMean(samples, n - 1);
    } else {
      assert samples[..0] == [];
    }
  }

  /** Up to 2^32 ticks: the average is near the mean throughout if and only if no step wraps. */
  lemma NearMeanIff(samples: seq<nat>)
    requires |samples| <= 0x1_0000_0000
    ensures (forall n :: 0 <= n <= |samples| ==> NearMean(samples[..n])) <==> EveryStepFits(samples)
  {
    if EveryStepFits(samples) {
      forall n | 0 <= n <= |samples|
        ensures NearMean(samples[..n])
      {
        AverageNearMean(samples, n);
      }
    } else {
      var i :| 0 <= i < |samples| && !StepFits(samples, i);
      if NearMean(samples[..i]) {
        NextNearMean(samples, i);
      }
    }
  }

  /** Durations that add up to a 64-bit number never wrap. */
  lemma {:induction false} SmallSumsFit(samples: seq<nat>)
    requires Sum(samples) < U64_RANGE
    ensures EveryStepFits(samples)
  {
    if samples != [] {
      var n := |samples| - 1;
      var front := samples[..n];
      SmallSumsFit(front);
      AverageNearMean(front, n);
      assert front[..n] == front;
      forall i | 0 <= i < |samples|
        ensures StepFits(samples, i)
      {
        assert i < n ==> StepFits(front, i) && front[..i] == samples[..i] && front[i] == samples[i];
      }
    }
  }

  lemma FrontFits(samples: seq<nat>)
    requires samples != [] && EveryStepFits(samples)
    ensures var front := samples[..|samples| - 1];
      EveryStepFits(front) && Fits(After(front), samples[|samples| - 1])
  {
    var n := |samples| - 1;
    var front := samples[..n];
    assert StepFits(samples, n);
    forall i | 0 <= i < n
      ensures StepFits(front, i)
    {
      assert StepFits(samples, i) && front[..i] == samples[..i];
    }
  }

  /** As long as no step wraps, the average lies between any bounds on the samples, the least and the greatest among them. */
  lemma {:induction false} AverageBetween(samples: seq<nat>, lo: nat, hi: nat)
    requires samples != [] && EveryStepFits(samples)
    requires forall x :: x in samples ==> lo <= x <= hi
    ensures lo <= After(samples).avg <= hi
  {
    var front, d := samples[..|samples| - 1], samples[|samples| - 1];
    assert d in samples;
    FrontFits(samples);
    TicksCount(front);
    if front != [] {
      assert forall x :: x in front ==> x in samples;
      AverageBetween(front, lo, hi);
    }
    ShareBetween(After(front).avg, After(front).ticks, d, lo, hi);
  }

  // ---------------------------------------------------------------------------
  // The bounds are met, and fail once a step wraps
  // ---------------------------------------------------------------------------

  lemma TickedLag(n: nat)
    requires n < U64_RANGE
    ensures Ticked(Average(n, 0), n) == Average(n + 1, 0)
  {
    assert 0 * n + n == n;
    ShareFits(n, n + 1);
    assert Share(n, n + 1) * (n + 1) <= n;
    if Share(n, n + 1) >= 1 {
      MulAtLeast(n + 1, 0, Share(n, n + 1));
    }
  }

  /** The lag is met: durations 0, 1, 2, … leave the stored average at 0 while their mean is (n - 1) / 2. */
  lemma {:induction false} LagIsMet(n: nat)
    requires n <= U64_RANGE
    ensures var samples := seq(n, i => i);
            After(samples) == Average(n, 0) && 2 * Sum(samples) == n * (n - 1)
  {
    if n > 0 {
      LagIsMet(n - 1);
      TickedLag(n - 1);
      Triangle(n - 1);
      var samples := seq(n, i => i);
      assert samples[..n - 1] == seq(n - 1, i => i);
    }
  }

  /** The greatest duration twice: the second tick wraps, and the average is half of either sample. */
  lemma WrappedAverage()
    ensures var d := U64_RANGE - 1;
      After([d, d]) == Average(2, U64_RANGE / 2 - 1) && !NearMean([d, d]) && !StepFits([d, d], 1)
  {
    var d := U64_RANGE - 1;
    var samples := [d, d];
    assert samples[..1] == [d] && [d][..0] == [];
    assert After([]) == START && Sum([]) == 0;
    assert After([d]) == Average(1, d) by {
      assert 0 * 0 + d == d && d % U64_RANGE / 1 == d;
    }
    assert Sum([d]) == d;
    assert d * 1 + d == 2 * U64_RANGE - 2;
    assert (2 * U64_RANGE - 2) % U64_RANGE == U64_RANGE - 2;
  }
}
