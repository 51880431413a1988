/** The error tracker against its full history: windows, streaks, alarms and totals. */
module ErrorTrackerHistory {
  import opened Bits
  import opened ErrorTracker

  datatype Event =
    | Success(ch: byte, at: real)
    | Failure(ch: byte, clock: Clock)
    | Reset(ch: byte)
    | Remove(ch: byte)

  function Apply(t: Tracker, config: Config, e: Event): Tracker {
    match e
    case Success(ch, _) => OnSuccess(t, config, ch)
    case Failure(ch, k) => OnFailure(t, config, ch, k)
    case Reset(ch) => OnReset(t, ch)
    case Remove(ch) => OnRemove(t, ch)
  }

  function After(config: Config, history: seq<Event>): Tracker {
    if history == [] then NEW_TRACKER
    else Apply(After(config, history[..|history| - 1]), config, history[|history| - 1])
  }

  /** The latest clock reading. */
  function Latest(history: seq<Event>, start: real): real {
    if history == [] then start
    else
      match history[|history| - 1]
      case Success(_, at) => at
      case Failure(_, k) => k.rate
      case _ => Latest(history[..|history| - 1], start)
  }

  /** The clock does not go back. */
  predicate Timed(history: seq<Event>, start: real) {
    history == [] ||
    (&& Timed(history[..|history| - 1], start)
     && match history[|history| - 1]
        case Success(_, at) => Latest(history[..|history| - 1], start) <= at
        case Failure(_, k) => Latest(history[..|history| - 1], start) <= k.stamp && k.Ordered()
        case _ => true)
  }

  // ---------------------------------------------------------------------------
  // What the full history says of one channel
  // ---------------------------------------------------------------------------

  /** Stamps of the failures since the channel was last reset or removed. */
  function FailuresSinceReset(history: seq<Event>, ch: byte): seq<real> {
    if history == [] then []
    else
      var front, e := history[..|history| - 1], history[|history| - 1];
      if e.ch != ch then FailuresSinceReset(front, ch)
      else if e.Failure? then FailuresSinceReset(front, ch) + [e.clock.stamp]
      else if e.Success? then FailuresSinceReset(front, ch)
      else []
  }

  /** Stamps of the failures since the channel was last removed. */
  function LifeFailures(history: seq<Event>, ch: byte): seq<real> {
    if history == [] then []
    else
      var front, e := history[..|history| - 1], history[|history| - 1];
      if e.ch == ch && e.Failure? then LifeFailures(front, ch) + [e.clock.stamp]
      else if e.ch == ch && e.Remove? then []
      else LifeFailures(front, ch)
  }

  function LifeSuccesses(history: seq<Event>, ch: byte): seq<real> {
    if history == [] then []
    else
      var front, e := history[..|history| - 1], history[|history| - 1];
      if e.ch == ch && e.Success? then LifeSuccesses(front, ch) + [e.at]
      else if e.ch == ch && e.Remove? then []
      else LifeSuccesses(front, ch)
  }

  /** Length of the run of failures that the channel's events end with. */
  function Streak(history: seq<Event>, ch: byte): nat {
    if history == [] then 0
    else
      var front, e := history[..|history| - 1], history[|history| - 1];
      if e.ch != ch then Streak(front, ch) else if e.Failure? then Streak(front, ch) + 1 else 0
  }

  // ---------------------------------------------------------------------------
  // The pruned window
  // ---------------------------------------------------------------------------

  /** Positions of the stamps at or after the cutoff. */
  function Recent(stamps: seq<real>, cutoff: real): set<int> {
    set i | 0 <= i < |stamps| && stamps[i] >= cutoff
  }

  /** The window count is the number of stamps at or after the cutoff. */
  lemma {:induction false} CountSinceIs(stamps: seq<real>, cutoff: real)
    ensures CountSince(stamps, cutoff) == |Recent(stamps, cutoff)|
  {
    if stamps == [] {
      assert Recent(stamps, cutoff) == {};
    } else {
      var n := |stamps| - 1;
      CountSinceIs(stamps[..n], cutoff);
      if stamps[n] >= cutoff {
        assert Recent(stamps, cutoff) == Recent(stamps[..n], cutoff) + {n};
      } else {
        assert Recent(stamps, cutoff) == Recent(stamps[..n], cutoff);
      }
    }
  }

  lemma CountAppend(stamps: seq<real>, stamp: real, cutoff: real)
    ensures CountSince(stamps + [stamp], cutoff) == CountSince(stamps, cutoff) + if stamp >= cutoff then 1 else 0
  {
    assert (stamps + [stamp])[..|stamps|] == stamps;
  }

  lemma {:induction false} CountFront(stamps: seq<real>, cutoff: real)
    requires stamps != []
    ensures CountSince(stamps, cutoff) == (if stamps[0] >= cutoff then 1 else 0) + CountSince(stamps[1..], cutoff)
  {
    var front := stamps[..|stamps| - 1];
    if front != [] {
      CountFront(front, cutoff);
      assert front[1..] == stamps[1..][..|stamps| - 2];
    }
  }

  /** Pruning does not change any count from its own cutoff on. */
  lemma {:induction false} PruneKeepsCounts(stamps: seq<real>, pruned: real, cutoff: real)
    requires pruned <= cutoff
    ensures CountSince(Prune(stamps, pruned), cutoff) == CountSince(stamps, cutoff)
    decreases |stamps|
  {
    if stamps != [] && stamps[0] < pruned {
      CountFront(stamps, cutoff);
      PruneKeepsCounts(stamps[1..], pruned, cutoff);
    }
  }

  /** One failure more, pruned and not pruned. */
  lemma RecordCounts(kept: seq<real>, all: seq<real>, stamp: real, pruned: real, cutoff: real)
    requires CountSince(kept, cutoff) == CountSince(all, cutoff) && pruned <= cutoff
    ensures CountSince(Prune(kept + [stamp], pruned), cutoff) == CountSince(all + [stamp], cutoff)
  {
    PruneKeepsCounts(kept + [stamp], pruned, cutoff);
    CountAppend(kept, stamp, cutoff);
    CountAppend(all, stamp, cutoff);
  }

  lemma {:induction false} WindowSurvivesPruning(config: Config, history: seq<Event>, start: real, ch: byte, now: real)
    requires config.enabled && Timed(history, start) && now >= Latest(history, start)
    ensures CountSince(ChannelOf(After(config, history), ch).recent, now - config.Window())
         == CountSince(FailuresSinceReset(history, ch), now - config.Window())
  {
    if history != [] {
      var front, e := history[..|history| - 1], history[|history| - 1];
      WindowSurvivesPruning(config, front, start, ch, now);
      RecentStep(After(config, front), config, e, ch);
      if e.Failure? && e.ch == ch {
        RecordCounts(ChannelOf(After(config, front), ch).recent, FailuresSinceReset(front, ch), e.clock.stamp,
                     e.clock.prune - config.Window(), now - config.Window());
      }
    }
  }

  /**
    At any time from the last event on, the window count of the pruned deque is
    the count over every failure since the last reset or removal.
   */
  lemma {:induction false} WindowAgreesWithHistory(config: Config, history: seq<Event>, start: real, ch: byte, now: real)
    requires config.enabled && Timed(history, start) && now >= Latest(history, start)
    ensures CountSince(ChannelOf(After(config, history), ch).recent, now - config.windowMs as real)
         == CountSince(FailuresSinceReset(history, ch), now - config.windowMs as real)
  {
    WindowSurvivesPruning(config, history, start, ch, now);
  }

  /** What an event does to a channel's deque. */
  lemma RecentStep(t: Tracker, config: Config, e: Event, ch: byte)
    requires config.enabled
    ensures ChannelOf(Apply(t, config, e), ch).recent ==
      if e.ch != ch || e.Success? then ChannelOf(t, ch).recent
      else if e.Failure? then Prune(ChannelOf(t, ch).recent + [e.clock.stamp], e.clock.prune - config.Window())
      else []
  {
  }

  // ---------------------------------------------------------------------------
  // Streaks and the restart signal
  // ---------------------------------------------------------------------------

  /** The streak at which the signal fires: the threshold, or 1 where the threshold is 0. */
  function FiringStreak(config: Config): nat {
    if config.consecutiveThreshold == 0 then 1 else config.consecutiveThreshold
  }

  /** The counter is the streak, and the flag is up exactly from the firing streak on. */
  lemma {:induction false} StreakByHistory(config: Config, history: seq<Event>, ch: byte)
    requires config.enabled
    ensures var c := ChannelOf(After(config, history), ch);
      c.consecutive == Streak(history, ch) && (c.restart <==> Streak(history, ch) >= FiringStreak(config))
  {
    if history != [] {
      StreakByHistory(config, history[..|history| - 1], ch);
    }
  }

  /** The signal fires on exactly the failure that brings the streak to the threshold. */
  lemma SignalOncePerStreak(config: Config, history: seq<Event>, ch: byte, k: Clock)
    requires config.enabled
    ensures var r := ResultOf(After(config, history), config, ch, k);
      && (r.ConsecutiveThresholdExceeded? <==> Streak(history + [Failure(ch, k)], ch) == FiringStreak(config))
      && (r.ConsecutiveThresholdExceeded? ==> r.consecutiveErrors == FiringStreak(config) && r.threshold == config.consecutiveThreshold)
  {
    StreakByHistory(config, history, ch);
    var longer := history + [Failure(ch, k)];
    assert longer[..|longer| - 1] == history;
  }

  // ---------------------------------------------------------------------------
  // The rate alarm
  // ---------------------------------------------------------------------------

  lemma {:induction false} TotalsByHistory(config: Config, history: seq<Event>, ch: byte)
    requires config.enabled
    ensures var c := ChannelOf(After(config, history), ch);
      c.successes == |LifeSuccesses(history, ch)| && c.failures == |LifeFailures(history, ch)|
  {
    if history != [] {
      TotalsByHistory(config, history[..|history| - 1], ch);
    }
  }

  predicate IsSuffix(part: seq<real>, all: seq<real>) {
    |part| <= |all| && all[|all| - |part|..] == part
  }

  lemma {:induction false} ResetKeepsSuffix(history: seq<Event>, ch: byte)
    ensures IsSuffix(FailuresSinceReset(history, ch), LifeFailures(history, ch))
  {
    if history != [] {
      ResetKeepsSuffix(history[..|history| - 1], ch);
    }
  }

  lemma {:induction false} CountBounds(part: seq<real>, all: seq<real>, cutoff: real)
    requires IsSuffix(part, all)
    ensures CountSince(part, cutoff) <= CountSince(all, cutoff) <= |all|
    decreases |all|
  {
    if part != [] {
      assert part[|part| - 1] == all[|all| - 1];
      assert all[..|all| - 1][|all| - |part|..] == part[..|part| - 1];
      CountBounds(part[..|part| - 1], all[..|all| - 1], cutoff);
    } else if all != [] {
      CountBounds([], all[..|all| - 1], cutoff);
    }
  }

  /** Errors in the window since the last reset, counting the failure at hand. */
  function WindowErrors(config: Config, history: seq<Event>, ch: byte, k: Clock, now: real): nat {
    CountSince(FailuresSinceReset(history, ch) + [k.stamp], now - config.windowMs as real)
  }

  /** Sends of the channel's life, counting the failure at hand. */
  function LifeSends(history: seq<Event>, ch: byte): nat {
    |LifeSuccesses(history, ch)| + |LifeFailures(history, ch)| + 1
  }

  /** The judgement of a recorded failure, from its counts alone. */
  lemma JudgeByCounts(c: Channel, config: Config, k: Clock, counted: nat, rated: nat, sends: nat)
    requires CountSince(c.recent, k.count - config.Window()) == counted
    requires CountSince(c.recent, k.rate - config.Window()) == rated
    requires c.successes + c.failures == sends && sends > 0
    ensures var r, rate := Judge(c, config, k), rated as real / sends as real;
      && (r.RateThresholdExceeded? <==>
            !r.ConsecutiveThresholdExceeded? && sends >= config.minEventsForRate && rate > config.rateThreshold)
      && (r.RateThresholdExceeded? ==>
            r.errorCount == counted && r.windowMs == config.windowMs && r.rate == Percent(rate))
  {
  }

  /** The percentage is the ratio in whole hundredths, rounded down. */
  lemma PercentIs(errors: nat, sends: nat)
    requires sends > 0
    ensures var p := Percent(errors as real / sends as real);
      p * sends <= 100 * errors < (p + 1) * sends
  {
    var q := errors as real / sends as real;
    DivNotNegative(errors as real, sends as real);
    QuotientTimes(errors as real, sends as real);
    Hundredfold(q, sends as real);
    var p := (q * 100.0).Floor;
    BelowTimes(p, sends, errors, q * 100.0);
    AboveTimes(p + 1, sends, errors, q * 100.0);
  }

  lemma BelowTimes(m: int, sends: nat, errors: nat, x: real)
    requires sends > 0 && m as real <= x && x * sends as real == 100.0 * errors as real
    ensures m * sends <= 100 * errors
  {
    MulLessEq2(m as real, x, sends as real);
    ProductsAgree(m, sends);
  }

  lemma AboveTimes(m: int, sends: nat, errors: nat, x: real)
    requires sends > 0 && x < m as real && x * sends as real == 100.0 * errors as real
    ensures 100 * errors < m * sends
  {
    MulLess(x, m as real, sends as real);
    ProductsAgree(m, sends);
  }

  lemma Hundredfold(q: real, s: real)
    ensures q * 100.0 * s == 100.0 * (q * s)
  {
  }

  lemma MulLessEq2(x: real, y: real, s: real)
    requires x <= y && s > 0.0
    ensures x * s <= y * s
  {
    assert (y - x) * s >= 0.0;
    assert (y - x) * s == y * s - x * s;
  }

  lemma ProductsAgree(a: int, b: int)
    ensures a as real * b as real == (a * b) as real
  {
  }

  lemma RecordedWindow(config: Config, history: seq<Event>, start: real, ch: byte, k: Clock, now: real)
    requires config.enabled && Timed(history, start) && Latest(history, start) <= k.stamp && k.Ordered() && now >= k.prune
    ensures CountSince(Record(ChannelOf(After(config, history), ch), config, k).recent, now - config.Window())
         == WindowErrors(config, history, ch, k, now)
  {
    WindowAgreesWithHistory(config, history, start, ch, now);
    RecordCounts(ChannelOf(After(config, history), ch).recent, FailuresSinceReset(history, ch), k.stamp,
                 k.prune - config.Window(), now - config.Window());
  }

  lemma RecordedSends(config: Config, history: seq<Event>, ch: byte, k: Clock)
    requires config.enabled
    ensures var c := Record(ChannelOf(After(config, history), ch), config, k);
      c.successes + c.failures == LifeSends(history, ch)
  {
    TotalsByHistory(config, history, ch);
  }

  /** When the alarm is raised and what it reports, in terms of the history alone. */
  lemma AlarmByHistory(config: Config, history: seq<Event>, start: real, ch: byte, k: Clock)
    requires config.enabled && Timed(history, start) && Latest(history, start) <= k.stamp && k.Ordered()
    ensures var r := ResultOf(After(config, history), config, ch, k);
      var rate := WindowErrors(config, history, ch, k, k.rate) as real / LifeSends(history, ch) as real;
      && (r.RateThresholdExceeded? <==>
            && Streak(history + [Failure(ch, k)], ch) != FiringStreak(config)
            && LifeSends(history, ch) >= config.minEventsForRate
            && rate > config.rateThreshold)
      && (r.RateThresholdExceeded? ==>
            var errors, sends := WindowErrors(config, history, ch, k, k.rate), LifeSends(history, ch);
            && r.errorCount == WindowErrors(config, history, ch, k, k.count)
            && r.windowMs == config.windowMs
            && r.rate * sends <= 100 * errors < (r.rate + 1) * sends)
  {
    PercentIs(WindowErrors(config, history, ch, k, k.rate), LifeSends(history, ch));
    SignalOncePerStreak(config, history, ch, k);
    RecordedWindow(config, history, start, ch, k, k.count);
    RecordedWindow(config, history, start, ch, k, k.rate);
    RecordedSends(config, history, ch, k);
    JudgeByCounts(Record(ChannelOf(After(config, history), ch), config, k), config, k,
                  WindowErrors(config, history, ch, k, k.count), WindowErrors(config, history, ch, k, k.rate),
                  LifeSends(history, ch));
  }

  /** The alarm condition, from the history alone. */
  predicate Raises(config: Config, history: seq<Event>, ch: byte, k: Clock) {
    && Streak(history + [Failure(ch, k)], ch) != FiringStreak(config)
    && LifeSends(history, ch) >= config.minEventsForRate
    && WindowErrors(config, history, ch, k, k.rate) as real / LifeSends(history, ch) as real > config.rateThreshold
  }

  /** Failures that brought a streak to the threshold. */
  function StreakSignals(config: Config, history: seq<Event>): nat {
    if history == [] then 0
    else
      var front, e := history[..|history| - 1], history[|history| - 1];
      StreakSignals(config, front) + if e.Failure? && Streak(history, e.ch) == FiringStreak(config) then 1 else 0
  }

  /** Failures that raised the rate alarm. */
  function RateAlarms(config: Config, history: seq<Event>): nat {
    if history == [] then 0
    else
      var front, e := history[..|history| - 1], history[|history| - 1];
      RateAlarms(config, front) + if e.Failure? && Raises(config, front, e.ch, e.clock) then 1 else 0
  }

  lemma TriggerStep(t: Tracker, config: Config, e: Event)
    requires config.enabled
    ensures var after := Apply(t, config, e);
      && after.consecutiveTriggers == t.consecutiveTriggers
           + (if e.Failure? && ResultOf(t, config, e.ch, e.clock).ConsecutiveThresholdExceeded? then 1 else 0)
      && after.rateTriggers == t.rateTriggers
           + if e.Failure? && ResultOf(t, config, e.ch, e.clock).RateThresholdExceeded? then 1 else 0
  {
  }

  /** The trigger counters are the numbers of streaks that fired and of alarms that were raised. */
  lemma {:induction false} TriggersByHistory(config: Config, history: seq<Event>, start: real)
    requires config.enabled && Timed(history, start)
    ensures After(config, history).consecutiveTriggers == StreakSignals(config, history)
    ensures After(config, history).rateTriggers == RateAlarms(config, history)
  {
    if history != [] {
      var front, e := history[..|history| - 1], history[|history| - 1];
      TriggersByHistory(config, front, start);
      TriggerStep(After(config, front), config, e);
      if e.Failure? {
        assert history == front + [Failure(e.ch, e.clock)];
        SignalOncePerStreak(config, front, e.ch, e.clock);
        AlarmByHistory(config, front, start, e.ch, e.clock);
      }
    }
  }

  /** A disabled tracker records nothing and signals nothing, whatever happens. */
  lemma {:induction false} DisabledStaysEmpty(config: Config, history: seq<Event>, ch: byte, k: Clock)
    requires !config.enabled
    ensures After(config, history) == Tracker(map[], 0, 0, 0, 0)
    ensures ResultOf(After(config, history), config, ch, k) == Recorded
  {
    if history != [] {
      DisabledStaysEmpty(config, history[..|history| - 1], ch, k);
    }
  }

  /** Failures and successes of the channel's life that lie in the window, the failure at hand included. */
  function TrueFailures(config: Config, history: seq<Event>, ch: byte, k: Clock): nat {
    CountSince(LifeFailures(history, ch) + [k.stamp], k.rate - config.windowMs as real)
  }

  function TrueSuccesses(config: Config, history: seq<Event>, ch: byte, k: Clock): nat {
    CountSince(LifeSuccesses(history, ch), k.rate - config.windowMs as real)
  }

  lemma TrueBounds(config: Config, history: seq<Event>, ch: byte, k: Clock)
    ensures WindowErrors(config, history, ch, k, k.rate) <= TrueFailures(config, history, ch, k)
    ensures TrueFailures(config, history, ch, k) + TrueSuccesses(config, history, ch, k) <= LifeSends(history, ch)
  {
    var part, all := FailuresSinceReset(history, ch), LifeFailures(history, ch);
    ResetKeepsSuffix(history, ch);
    assert (all + [k.stamp])[|all| - |part|..] == part + [k.stamp];
    CountBounds(part + [k.stamp], all + [k.stamp], k.rate - config.Window());
    var ok := LifeSuccesses(history, ch);
    assert ok[0..] == ok;
    CountBounds(ok, ok, k.rate - config.Window());
  }

  /** More errors over fewer sends: the ratio only grows. */
  lemma RatioGrows(errors: nat, sends: nat, more: nat, fewer: nat, threshold: real)
    requires errors <= more && 0 < fewer <= sends && errors as real / sends as real > threshold
    ensures more as real / fewer as real > threshold
  {
    var e, s, m, f := errors as real, sends as real, more as real, fewer as real;
    if threshold >= 0.0 {
      var q := e / s;
      QuotientTimes(e, s);
      MulLess(threshold, q, s);
      MulLessEq(threshold, f, s);
      DivGreater(m, f, threshold);
    } else {
      DivNotNegative(m, f);
    }
  }

  lemma QuotientTimes(e: real, s: real)
    requires s > 0.0
    ensures (e / s) * s == e
  {
  }

  lemma DivNotNegative(m: real, f: real)
    requires m >= 0.0 && f > 0.0
    ensures m / f >= 0.0
  {
  }

  lemma MulLess(x: real, y: real, s: real)
    requires x < y && s > 0.0
    ensures x * s < y * s
  {
    assert (y - x) * s > 0.0;
  }

  lemma MulLessEq(x: real, f: real, s: real)
    requires x >= 0.0 && f <= s
    ensures x * f <= x * s
  {
    assert x * (s - f) >= 0.0;
  }

  lemma DivGreater(m: real, f: real, threshold: real)
    requires f > 0.0 && m > threshold * f
    ensures m / f > threshold
  {
    var q := m / f;
    assert q * f == m;
    assert (q - threshold) * f > 0.0;
  }

  /**
    The alarm is sound although it divides by the sends of a whole life: when
    it is raised, the channel's failures over its sends in the window exceed
    the threshold, and the reported percentage is at most 100.
   */
  lemma AlarmIsSound(config: Config, history: seq<Event>, start: real, ch: byte, k: Clock)
    requires config.enabled && Timed(history, start) && Latest(history, start) <= k.stamp && k.Ordered()
    requires ResultOf(After(config, history), config, ch, k).RateThresholdExceeded?
    ensures var f, s := TrueFailures(config, history, ch, k), TrueSuccesses(config, history, ch, k);
      && (f + s > 0 ==> f as real / (f + s) as real > config.rateThreshold)
      && (config.rateThreshold >= 0.0 ==> f > 0)
    ensures ResultOf(After(config, history), config, ch, k).rate <= 100
  {
    var f, s := TrueFailures(config, history, ch, k), TrueSuccesses(config, history, ch, k);
    var e, n := WindowErrors(config, history, ch, k, k.rate), LifeSends(history, ch);
    AlarmByHistory(config, history, start, ch, k);
    TrueBounds(config, history, ch, k);
    if f + s > 0 {
      RatioGrows(e, n, f, f + s, config.rateThreshold);
    }
    NotOverHundred(ResultOf(After(config, history), config, ch, k).rate, e, n);
    if e == 0 {
      NoErrorsNoRate(e, n);
    }
  }

  lemma NotOverHundred(p: nat, errors: nat, sends: nat)
    requires errors <= sends && sends > 0 && p * sends <= 100 * errors
    ensures p <= 100
  {
    if p > 100 {
      MulAtLeast(sends, 100, p);
    }
  }

  lemma NoErrorsNoRate(errors: nat, sends: nat)
    requires sends > 0 && errors == 0
    ensures errors as real / sends as real == 0.0
  {
  }

  /** With the channel's whole life in the window and no reset in it, the alarm is exact. */
  lemma AlarmIsExactWhenRecent(config: Config, history: seq<Event>, start: real, ch: byte, k: Clock)
    requires config.enabled && Timed(history, start) && Latest(history, start) <= k.stamp && k.Ordered()
    requires FailuresSinceReset(history, ch) == LifeFailures(history, ch)
    requires TrueFailures(config, history, ch, k) + TrueSuccesses(config, history, ch, k) == LifeSends(history, ch)
    requires Streak(history + [Failure(ch, k)], ch) != FiringStreak(config)
    requires LifeSends(history, ch) >= config.minEventsForRate
    ensures var f, s := TrueFailures(config, history, ch, k), TrueSuccesses(config, history, ch, k);
      ResultOf(After(config, history), config, ch, k).RateThresholdExceeded? <==>
      f as real / (f + s) as real > config.rateThreshold
  {
    AlarmByHistory(config, history, start, ch, k);
  }

  /**
    Otherwise old sends can hide a window in which every send failed: two
    successes at time 0 and a failure long after them, under a threshold of one half.
   */
  lemma AlarmCanMiss(config: Config, k: Clock)
    requires config.enabled && config.consecutiveThreshold > 1 && config.windowMs == 10
    requires config.rateThreshold == 0.5 && k == Clock(100.0, 100.0, 100.0, 100.0)
    ensures var history := [Success(1, 0.0), Success(1, 0.0)];
      && Timed(history, 0.0) && Latest(history, 0.0) <= k.stamp
      && TrueSuccesses(config, history, 1, k) == 0 && TrueFailures(config, history, 1, k) == 1
      && ResultOf(After(config, history), config, 1, k) == Recorded
  {
    var history := [Success(1, 0.0), Success(1, 0.0)];
    TwoSuccesses();
    OldStamps(90.0);
    OneStamp(90.0);
    OneInThree();
    AlarmByHistory(config, history, 0.0, 1, k);
    SignalOncePerStreak(config, history, 1, k);
    assert (history + [Failure(1, k)])[..2] == history;
  }

  lemma OldStamps(cutoff: real)
    requires cutoff > 0.0
    ensures CountSince([0.0, 0.0], cutoff) == 0
  {
    assert [0.0, 0.0][..1] == [0.0] && [0.0][..0] == [];
    assert CountSince([0.0], cutoff) == 0;
  }

  lemma OneInThree()
    ensures 1 as real / 3 as real <= 0.5
  {
  }

  lemma TwoSuccesses()
    ensures var history := [Success(1, 0.0), Success(1, 0.0)];
      && LifeSuccesses(history, 1) == [0.0, 0.0] && LifeFailures(history, 1) == []
      && FailuresSinceReset(history, 1) == [] && Streak(history, 1) == 0
      && Timed(history, 0.0) && Latest(history, 0.0) == 0.0
  {
    var first, history := [Success(1, 0.0)], [Success(1, 0.0), Success(1, 0.0)];
    assert history[..1] == first && first[..0] == [];
    assert LifeSuccesses(first, 1) == [0.0] && LifeFailures(first, 1) == [] && FailuresSinceReset(first, 1) == [];
    assert Timed([], 0.0) && Timed(first, 0.0) && Latest(first, 0.0) == 0.0;
  }

  lemma OneStamp(cutoff: real)
    requires cutoff <= 100.0
    ensures CountSince([] + [100.0], cutoff) == 1
  {
    assert ([] + [100.0])[..0] == [];
  }

  // ---------------------------------------------------------------------------
  // Channels do not affect each other
  // ---------------------------------------------------------------------------

  function Only(history: seq<Event>, ch: byte): seq<Event> {
    if history == [] then []
    else
      var e := history[|history| - 1];
      var front := Only(history[..|history| - 1], ch);
      if e.ch == ch then front + [e] else front
  }

  /** A channel's state is what its own events alone make it. */
  lemma {:induction false} ChannelsIndependent(config: Config, history: seq<Event>, ch: byte)
    ensures var t, alone := After(config, history), After(config, Only(history, ch));
      (ch in t.channels <==> ch in alone.channels) && ChannelOf(t, ch) == ChannelOf(alone, ch)
  {
    if history != [] {
      var front, e := history[..|history| - 1], history[|history| - 1];
      ChannelsIndependent(config, front, ch);
      if e.ch == ch {
        assert Only(history, ch)[..|Only(history, ch)| - 1] == Only(front, ch);
      } else {
        assert Only(history, ch) == Only(front, ch);
      }
    }
  }

  // ---------------------------------------------------------------------------
  // Global totals
  // ---------------------------------------------------------------------------

  function Pick(c: Channel, failures: bool): nat {
    if failures then c.failures else c.successes
  }

  /** Over the channels with ids below `n`. */
  function Sum(channels: map<byte, Channel>, n: nat, failures: bool): nat
    requires n <= 0x100
  {
    if n == 0 then 0
    else Sum(channels, n - 1, failures) + if n - 1 in channels then Pick(channels[n - 1], failures) else 0
  }

  /** What removed channels had counted. */
  function Retired(config: Config, history: seq<Event>, failures: bool): nat {
    if history == [] then 0
    else
      var front, e := history[..|history| - 1], history[|history| - 1];
      Retired(config, front, failures)
      + if e.Remove? then Pick(ChannelOf(After(config, front), e.ch), failures) else 0
  }

  lemma {:induction false} SumWith(channels: map<byte, Channel>, n: nat, failures: bool, ch: byte, c: Channel)
    requires n <= 0x100
    ensures Sum(channels[ch := c], n, failures) == Sum(channels, n, failures)
      + if ch < n then Pick(c, failures) - (if ch in channels then Pick(channels[ch], failures) else 0) else 0
  {
    if n > 0 {
      SumWith(channels, n - 1, failures, ch, c);
    }
  }

  lemma {:induction false} SumWithout(channels: map<byte, Channel>, n: nat, failures: bool, ch: byte)
    requires n <= 0x100
    ensures Sum(channels - {ch}, n, failures) == Sum(channels, n, failures)
      - if ch < n && ch in channels then Pick(channels[ch], failures) else 0
  {
    if n > 0 {
      SumWithout(channels, n - 1, failures, ch);
    }
  }

  /** The global totals are the sums over live and removed channels. */
  lemma {:induction false} TotalsAddUp(config: Config, history: seq<Event>)
    ensures var t := After(config, history);
      && t.failures == Sum(t.channels, 0x100, true) + Retired(config, history, true)
      && t.successes == Sum(t.channels, 0x100, false) + Retired(config, history, false)
  {
    if history == [] {
      EmptySum(0x100, true);
      EmptySum(0x100, false);
    } else {
      var front, e := history[..|history| - 1], history[|history| - 1];
      TotalsAddUp(config, front);
      var t := After(config, front);
      match e
      case Success(ch, _) =>
        SumWith(t.channels, 0x100, true, ch, Succeed(ChannelOf(t, ch)));
        SumWith(t.channels, 0x100, false, ch, Succeed(ChannelOf(t, ch)));
      case Failure(ch, k) =>
        SumWith(t.channels, 0x100, true, ch, Fail(ChannelOf(t, ch), config, k));
        SumWith(t.channels, 0x100, false, ch, Fail(ChannelOf(t, ch), config, k));
      case Reset(ch) =>
        SumWith(t.channels, 0x100, true, ch, ResetChannel(ChannelOf(t, ch)));
        SumWith(t.channels, 0x100, false, ch, ResetChannel(ChannelOf(t, ch)));
      case Remove(ch) =>
        SumWithout(t.channels, 0x100, true, ch);
        SumWithout(t.channels, 0x100, false, ch);
    }
  }

  lemma {:induction false} EmptySum(n: nat, failures: bool)
    requires n <= 0x100
    ensures Sum(map[], n, failures) == 0
  {
    if n > 0 {
      EmptySum(n - 1, failures);
    }
  }
}
