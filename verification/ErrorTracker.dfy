/**
  The send error tracker (crates/mabi-knx/src/error_tracker.rs). Instants and
  the window are reals, in milliseconds; error categories and the timestamps
  kept for display are left out.
 */
module ErrorTracker {
  import opened Bits

  datatype Config = Config(
    enabled: bool, consecutiveThreshold: nat, windowMs: nat, rateThreshold: real, minEventsForRate: nat)
  {
    function Window(): real {
      windowMs as real
    }
  }

  datatype TrackingResult =
    | Recorded
    | ConsecutiveThresholdExceeded(consecutiveErrors: nat, threshold: nat)
    | RateThresholdExceeded(errorCount: nat, windowMs: nat, rate: nat)

  /** A failure reads the clock for its stamp, for pruning, for the count and for the rate. */
  datatype Clock = Clock(stamp: real, prune: real, count: real, rate: real)
  {
    predicate Ordered() {
      stamp <= prune <= count <= rate
    }
  }

  // ---------------------------------------------------------------------------
  // One channel
  // ---------------------------------------------------------------------------

  datatype Channel = Channel(
    consecutive: nat, recent: seq<real>, successes: nat, failures: nat, restart: bool)

  const NEW_CHANNEL := Channel(0, [], 0, 0, false)

  function CountSince(stamps: seq<real>, cutoff: real): nat {
    if stamps == [] then 0
    else CountSince(stamps[..|stamps| - 1], cutoff) + if stamps[|stamps| - 1] >= cutoff then 1 else 0
  }

  function Prune(stamps: seq<real>, cutoff: real): seq<real> {
    if stamps != [] && stamps[0] < cutoff then Prune(stamps[1..], cutoff) else stamps
  }

  function Succeed(c: Channel): Channel {
    c.(consecutive := 0, successes := c.successes + 1, restart := false)
  }

  function Record(c: Channel, config: Config, k: Clock): Channel {
    c.(consecutive := c.consecutive + 1, failures := c.failures + 1,
       recent := Prune(c.recent + [k.stamp], k.prune - config.Window()))
  }

  /** Errors in the window over all sends of the channel's life. */
  function Rate(c: Channel, config: Config, now: real): real {
    if c.successes + c.failures == 0 then 0.0
    else CountSince(c.recent, now - config.Window()) as real / (c.successes + c.failures) as real
  }

  /** What a recorded failure leads to. */
  function Judge(c: Channel, config: Config, k: Clock): TrackingResult {
    if c.consecutive >= config.consecutiveThreshold && !c.restart then
      ConsecutiveThresholdExceeded(c.consecutive, config.consecutiveThreshold)
    else if c.successes + c.failures >= config.minEventsForRate && Rate(c, config, k.rate) > config.rateThreshold then
      RateThresholdExceeded(CountSince(c.recent, k.count - config.Window()), config.windowMs, Percent(Rate(c, config, k.rate)))
    else Recorded
  }

  /** `(rate * 100.0) as u32` */
  function Percent(rate: real): nat {
    if rate < 0.0 then 0 else (rate * 100.0).Floor
  }

  function Fail(c: Channel, config: Config, k: Clock): Channel {
    var recorded := Record(c, config, k);
    if Judge(recorded, config, k).ConsecutiveThresholdExceeded? then recorded.(restart := true) else recorded
  }

  function ResetChannel(c: Channel): Channel {
    c.(consecutive := 0, recent := [], restart := false)
  }

  class ChannelErrorState {
    var consecutiveErrors: nat
    var recentErrors: seq<real>
    var totalSuccesses: nat
    var totalFailures: nat
    var restartTriggered: bool

    ghost function View(): Channel
      reads this
    {
      Channel(consecutiveErrors, recentErrors, totalSuccesses, totalFailures, restartTriggered)
    }

    constructor ()
      ensures View() == NEW_CHANNEL
    {
      consecutiveErrors := 0;
      recentErrors := [];
      totalSuccesses := 0;
      totalFailures := 0;
      restartTriggered := false;
    }

    method RecordSuccess()
      modifies this
      ensures View() == Succeed(old(View()))
    {
      consecutiveErrors := 0;
      totalSuccesses := totalSuccesses + 1;
      restartTriggered := false;
    }

    method RecordFailure(now: real)
      modifies this
      ensures View() == old(View()).(consecutive := old(consecutiveErrors) + 1, failures := old(totalFailures) + 1,
                                     recent := old(recentErrors) + [now])
    {
      consecutiveErrors := consecutiveErrors + 1;
      totalFailures := totalFailures + 1;
      recentErrors := recentErrors + [now];
    }

    method PruneOldEvents(window: real, now: real)
      modifies this`recentErrors
      ensures recentErrors == Prune(old(recentErrors), now - window)
    {
      var cutoff := now - window;
      while recentErrors != [] && recentErrors[0] < cutoff
        invariant Prune(recentErrors, cutoff) == Prune(old(recentErrors), cutoff)
        decreases |recentErrors|
      {
        recentErrors := recentErrors[1..];
      }
    }

    method WindowErrorCount(window: real, now: real) returns (n: nat)
      ensures n == CountSince(recentErrors, now - window)
    {
      var cutoff := now - window;
      n := 0;
      for i := 0 to |recentErrors|
        invariant n == CountSince(recentErrors[..i], cutoff)
      {
        assert recentErrors[..i + 1][..i] == recentErrors[..i];
        if recentErrors[i] >= cutoff {
          n := n + 1;
        }
      }
      assert recentErrors[..|recentErrors|] == recentErrors;
    }

    method Reset()
      modifies this
      ensures View() == ResetChannel(old(View()))
    {
      consecutiveErrors := 0;
      recentErrors := [];
      restartTriggered := false;
    }

    /** Recording and judging a failure, as `on_send_failure` does under the channel's lock. */
    method Failure(config: Config, k: Clock) returns (r: TrackingResult)
      modifies this
      ensures View() == Fail(old(View()), config, k)
      ensures r == Judge(Record(old(View()), config, k), config, k)
    {
      RecordFailure(k.stamp);
      PruneOldEvents(config.Window(), k.prune);
      if consecutiveErrors >= config.consecutiveThreshold && !restartTriggered {
        restartTriggered := true;
        return ConsecutiveThresholdExceeded(consecutiveErrors, config.consecutiveThreshold);
      }
      var total := totalSuccesses + totalFailures;
      if total >= config.minEventsForRate {
        var errorCount := WindowErrorCount(config.Window(), k.count);
        var errors := WindowErrorCount(config.Window(), k.rate);
        var rate := if total == 0 then 0.0 else errors as real / total as real;
        if rate > config.rateThreshold {
          return RateThresholdExceeded(errorCount, config.windowMs, Percent(rate));
        }
      }
      return Recorded;
    }
  }

  // ---------------------------------------------------------------------------
  // All channels
  // ---------------------------------------------------------------------------

  datatype Tracker = Tracker(
    channels: map<byte, Channel>, successes: nat, failures: nat, consecutiveTriggers: nat, rateTriggers: nat)

  const NEW_TRACKER := Tracker(map[], 0, 0, 0, 0)

  function ChannelOf(t: Tracker, ch: byte): Channel {
    if ch in t.channels then t.channels[ch] else NEW_CHANNEL
  }

  function OnSuccess(t: Tracker, config: Config, ch: byte): Tracker {
    if !config.enabled then t
    else t.(channels := t.channels[ch := Succeed(ChannelOf(t, ch))], successes := t.successes + 1)
  }

  /** The result of a failure on a channel. */
  function ResultOf(t: Tracker, config: Config, ch: byte, k: Clock): TrackingResult {
    if !config.enabled then Recorded else Judge(Record(ChannelOf(t, ch), config, k), config, k)
  }

  function OnFailure(t: Tracker, config: Config, ch: byte, k: Clock): Tracker {
    if !config.enabled then t
    else
      var r := ResultOf(t, config, ch, k);
      t.(channels := t.channels[ch := Fail(ChannelOf(t, ch), config, k)],
         failures := t.failures + 1,
         consecutiveTriggers := t.consecutiveTriggers + (if r.ConsecutiveThresholdExceeded? then 1 else 0),
         rateTriggers := t.rateTriggers + if r.RateThresholdExceeded? then 1 else 0)
  }

  function OnReset(t: Tracker, ch: byte): Tracker {
    if ch in t.channels then t.(channels := t.channels[ch := ResetChannel(t.channels[ch])]) else t
  }

  function OnRemove(t: Tracker, ch: byte): Tracker {
    t.(channels := t.channels - {ch})
  }

  lemma TwoUpdates(m: map<byte, Channel>, ch: byte, c: Channel, d: Channel)
    ensures m[ch := c][ch := d] == m[ch := d]
  {
  }

  class SendErrorTracker {
    const config: Config
    var channels: map<byte, ChannelErrorState>
    var totalSuccesses: nat
    var totalFailures: nat
    var consecutiveTriggers: nat
    var rateTriggers: nat

    /** No two channels share their state. */
    ghost predicate Valid()
      reads this
    {
      forall a, b :: a in channels && b in channels && a != b ==> channels[a] != channels[b]
    }

    ghost function View(): Tracker
      reads this, channels.Values
    {
      Tracker(map ch | ch in channels :: channels[ch].View(),
              totalSuccesses, totalFailures, consecutiveTriggers, rateTriggers)
    }

    constructor (config: Config)
      ensures Valid() && View() == NEW_TRACKER && this.config == config
    {
      this.config := config;
      channels := map[];
      totalSuccesses := 0;
      totalFailures := 0;
      consecutiveTriggers := 0;
      rateTriggers := 0;
    }

    method EnsureChannel(ch: byte)
      requires Valid()
      modifies this`channels
      ensures Valid() && ch in channels && fresh(channels.Values - old(channels.Values))
      ensures View() == old(View()).(channels := old(View()).channels[ch := ChannelOf(old(View()), ch)])
    {
      if ch !in channels {
        var state := new ChannelErrorState();
        channels := channels[ch := state];
      }
    }

    method OnSendSuccess(ch: byte)
      requires Valid()
      modifies this, channels.Values
      ensures Valid() && fresh(channels.Values - old(channels.Values))
      ensures View() == OnSuccess(old(View()), config, ch)
    {
      if !config.enabled {
        return;
      }
      ghost var before := View();
      EnsureChannel(ch);
      ghost var ensured := View();
      assert ensured.channels[ch] == ChannelOf(before, ch);
      SucceedOn(ch);
      TwoUpdates(before.channels, ch, ChannelOf(before, ch), Succeed(ChannelOf(before, ch)));
    }

    method SucceedOn(ch: byte)
      requires Valid() && ch in channels
      modifies this`totalSuccesses, channels[ch]
      ensures View() == old(View()).(channels := old(View()).channels[ch := Succeed(old(channels[ch].View()))],
                                     successes := old(totalSuccesses) + 1)
    {
      channels[ch].RecordSuccess();
      totalSuccesses := totalSuccesses + 1;
    }

    method OnSendFailure(ch: byte, k: Clock) returns (r: TrackingResult)
      requires Valid() && k.Ordered()
      modifies this, channels.Values
      ensures Valid() && fresh(channels.Values - old(channels.Values))
      ensures View() == OnFailure(old(View()), config, ch, k)
      ensures r == ResultOf(old(View()), config, ch, k)
    {
      if !config.enabled {
        return Recorded;
      }
      ghost var before := View();
      EnsureChannel(ch);
      ghost var ensured := View();
      assert ensured.channels[ch] == ChannelOf(before, ch);
      r := FailOn(ch, k);
      TwoUpdates(before.channels, ch, ChannelOf(before, ch), Fail(ChannelOf(before, ch), config, k));
      CountFailure(r);
    }

    /** The global counters. */
    method CountFailure(r: TrackingResult)
      modifies this`totalFailures, this`consecutiveTriggers, this`rateTriggers
      ensures View() == old(View()).(
        failures := old(totalFailures) + 1,
        consecutiveTriggers := old(consecutiveTriggers) + (if r.ConsecutiveThresholdExceeded? then 1 else 0),
        rateTriggers := old(rateTriggers) + if r.RateThresholdExceeded? then 1 else 0)
    {
      totalFailures := totalFailures + 1;
      if r.ConsecutiveThresholdExceeded? {
        consecutiveTriggers := consecutiveTriggers + 1;
      } else if r.RateThresholdExceeded? {
        rateTriggers := rateTriggers + 1;
      }
    }

    method FailOn(ch: byte, k: Clock) returns (r: TrackingResult)
      requires Valid() && ch in channels
      modifies channels[ch]
      ensures View() == old(View()).(channels := old(View()).channels[ch := Fail(old(channels[ch].View()), config, k)])
      ensures r == Judge(Record(old(channels[ch].View()), config, k), config, k)
    {
      r := channels[ch].Failure(config, k);
    }

    method WindowErrorCount(ch: byte, now: real) returns (n: nat)
      requires Valid()
      ensures n == CountSince(ChannelOf(View(), ch).recent, now - config.Window())
    {
      if ch !in channels {
        return 0;
      }
      n := channels[ch].WindowErrorCount(config.Window(), now);
    }

    method ResetChannelState(ch: byte)
      requires Valid()
      modifies channels.Values
      ensures Valid() && View() == OnReset(old(View()), ch)
    {
      if ch in channels {
        channels[ch].Reset();
      }
    }

    method RemoveChannel(ch: byte)
      requires Valid()
      modifies this`channels
      ensures Valid() && channels.Values <= old(channels.Values) && View() == OnRemove(old(View()), ch)
    {
      channels := channels - {ch};
    }
  }
}
