/**
  The chaos scheduler (crates/mabi-chaos/src/scheduler.rs). Instants and
  seconds are reals. The fields of an entry that no decision depends on (kind
  of chaos, intensity) are left out.
 */
module Scheduler {
  import opened Wrappers

  datatype ChaosEntry = ChaosEntry(startSecs: real, durationSecs: real, targets: seq<string>, description: string)

  datatype ChaosSchedule = ChaosSchedule(
    entries: seq<ChaosEntry>, loopSchedule: bool, totalDurationSecs: Option<real>)

  datatype ScheduleState = Stopped | Running | Paused | Completed

  datatype ActiveChaos = ActiveChaos(entry: ChaosEntry, startedAt: real)
  {
    /** `is_expired` at a given instant; `elapsed` never goes below zero. */
    predicate IsExpired(now: real) {
      (if now < startedAt then 0.0 else now - startedAt) >= entry.durationSecs
    }
  }

  datatype ChaosEvent = Started(entry: ChaosEntry) | Ended(entry: ChaosEntry) | ScheduleCompleted | ScheduleLooped

  /**
    The clock readings of a tick: for the elapsed time, for the stamp of each
    entry it starts, for the expiry of each activation it looks at, and when it
    hands out its events.
   */
  datatype Reading = Reading(now: real, stamp: nat -> real, check: nat -> real, end: real)
  {
    ghost predicate Ordered() {
      forall i: nat, j: nat :: now <= stamp(i) <= check(j) <= end
    }
  }

  /** A tick in which the clock stands still. */
  function Instant(t: real): Reading {
    Reading(t, _ => t, _ => t, t)
  }

  datatype Snapshot = Snapshot(
    schedule: ChaosSchedule, state: ScheduleState, active: seq<ActiveChaos>,
    startTime: Option<real>, next: nat, loops: nat)

  /**
    The cursor stays inside the schedule, and no duration is negative:
    `Duration::from_secs_f64` aborts on a negative number of seconds.
   */
  predicate WellFormed(s: Snapshot) {
    && s.next <= |s.schedule.entries|
    && (forall i :: 0 <= i < |s.schedule.entries| ==> s.schedule.entries[i].durationSecs >= 0.0)
    && (forall i :: 0 <= i < |s.active| ==> s.active[i].entry.durationSecs >= 0.0)
  }

  // ---------------------------------------------------------------------------
  // Looping
  // ---------------------------------------------------------------------------

  const U32_MAX: nat := 0xFFFF_FFFF

  /** `(elapsed / total) as u32`: truncated, clamped to the type, NaN as 0. */
  function LoopsAt(elapsed: real, total: real): nat
    requires elapsed >= 0.0
  {
    if total == 0.0 then (if elapsed > 0.0 then U32_MAX else 0)
    else
      var q := elapsed / total;
      if q < 0.0 then 0 else if q.Floor > U32_MAX then U32_MAX else q.Floor
  }

  function Remainder(elapsed: real, period: real): real
    requires period > 0.0
  {
    elapsed - (elapsed / period).Floor as real * period
  }

  /** `elapsed % total`: the sign of the divisor does not matter, and a zero divisor gives NaN. */
  function Wrapped(elapsed: real, total: real): Option<real>
    requires elapsed >= 0.0
  {
    if total == 0.0 then None
    else if total < 0.0 then Some(Remainder(elapsed, -total))
    else Some(Remainder(elapsed, total))
  }

  /** Where a tick stands once looping is settled; no position compares with NaN. */
  datatype Phase = Phase(loops: nat, next: nat, looped: bool, position: Option<real>)

  function LoopPhase(s: Snapshot, elapsed: real): (p: Phase)
    requires WellFormed(s) && elapsed >= 0.0
    ensures p.next <= |s.schedule.entries|
  {
    if s.schedule.loopSchedule && s.schedule.totalDurationSecs.Some? && elapsed >= s.schedule.totalDurationSecs.value then
      var total := s.schedule.totalDurationSecs.value;
      var loops := LoopsAt(elapsed, total);
      if loops > s.loops then Phase(loops, 0, true, Wrapped(elapsed, total))
      else Phase(s.loops, s.next, false, Wrapped(elapsed, total))
    else Phase(s.loops, s.next, false, Some(elapsed))
  }

  // ---------------------------------------------------------------------------
  // Starting and expiring
  // ---------------------------------------------------------------------------

  predicate Due(entry: ChaosEntry, position: Option<real>) {
    position.Some? && entry.startSecs <= position.value
  }

  /** The first index from `from` on whose entry is not due. */
  function FirstNotDue(entries: seq<ChaosEntry>, from: nat, position: Option<real>): (k: nat)
    requires from <= |entries|
    ensures from <= k <= |entries|
    ensures forall i :: from <= i < k ==> Due(entries[i], position)
    ensures k < |entries| ==> !Due(entries[k], position)
    decreases |entries| - from
  {
    if from < |entries| && Due(entries[from], position) then FirstNotDue(entries, from + 1, position) else from
  }

  /** The entries as activations, the one at position `i` started at `stamp(i)`. */
  function Stamped(entries: seq<ChaosEntry>, stamp: nat -> real): (s: seq<ActiveChaos>)
    ensures |s| == |entries|
  {
    seq(|entries|, i requires 0 <= i < |entries| => ActiveChaos(entries[i], stamp(i)))
  }

  /** The activations that last, the one at position `i` looked at when the clock shows `check(i)`. */
  function Surviving(active: seq<ActiveChaos>, check: nat -> real): seq<ActiveChaos> {
    if active == [] then []
    else
      var n := |active| - 1;
      if active[n].IsExpired(check(n)) then Surviving(active[..n], check) else Surviving(active[..n], check) + [active[n]]
  }

  function Expired(active: seq<ActiveChaos>, check: nat -> real): seq<ActiveChaos> {
    if active == [] then []
    else
      var n := |active| - 1;
      if active[n].IsExpired(check(n)) then Expired(active[..n], check) + [active[n]] else Expired(active[..n], check)
  }

  // ---------------------------------------------------------------------------
  // One tick
  // ---------------------------------------------------------------------------

  /** The outcome of a tick: entries[from..to] started, `ended` expired. */
  datatype TickResult = TickResult(
    after: Snapshot, looped: bool, from: nat, to: nat, ended: seq<ActiveChaos>, completed: bool)

  predicate Ticking(s: Snapshot) {
    s.state == Running && s.startTime.Some?
  }

  function Elapsed(s: Snapshot, now: real): (e: real)
    requires Ticking(s)
    ensures e >= 0.0
  {
    if now < s.startTime.value then 0.0 else now - s.startTime.value
  }

  /** A tick whose looping is settled: start what is due, drop what is expired, see whether all is done. */
  function TickFrom(s: Snapshot, phase: Phase, r: Reading): (t: TickResult)
    requires WellFormed(s) && phase.next <= |s.schedule.entries|
    ensures t.from <= t.to <= |s.schedule.entries| && t.after.schedule == s.schedule
  {
    var entries := s.schedule.entries;
    var to := FirstNotDue(entries, phase.next, phase.position);
    var all := s.active + Stamped(entries[phase.next..to], r.stamp);
    var kept := Surviving(all, r.check);
    var completed := !s.schedule.loopSchedule && to == |entries| && kept == [];
    TickResult(
      s.(state := if completed then Completed else s.state, active := kept, next := to, loops := phase.loops),
      phase.looped, phase.next, to, Expired(all, r.check), completed)
  }

  function TickOf(s: Snapshot, r: Reading): (t: TickResult)
    requires WellFormed(s)
    ensures t.from <= t.to <= |s.schedule.entries| && t.after.schedule == s.schedule
  {
    if !Ticking(s) then TickResult(s, false, s.next, s.next, [], false)
    else TickFrom(s, LoopPhase(s, Elapsed(s, r.now)), r)
  }

  /** An event with what the scheduler knew when it was emitted. */
  datatype Logged = Logged(event: ChaosEvent, index: nat, startedAt: real, at: real)

  function StartLog(entries: seq<ChaosEntry>, from: nat, to: nat, at: nat -> real): (log: seq<Logged>)
    requires from <= to <= |entries|
    ensures |log| == to - from
  {
    seq(to - from, i requires 0 <= i < to - from => Logged(Started(entries[from + i]), from + i, at(i), at(i)))
  }

  function EndLog(ended: seq<ActiveChaos>, at: real): (log: seq<Logged>)
    ensures |log| == |ended|
  {
    seq(|ended|, i requires 0 <= i < |ended| => Logged(Ended(ended[i].entry), 0, ended[i].startedAt, at))
  }

  function LoopLog(t: TickResult, r: Reading): seq<Logged> {
    if t.looped then [Logged(ScheduleLooped, 0, r.now, r.now)] else []
  }

  function CompletionLog(t: TickResult, r: Reading): seq<Logged> {
    if t.completed then [Logged(ScheduleCompleted, 0, r.end, r.end)] else []
  }

  function TickLog(t: TickResult, r: Reading): seq<Logged>
    requires t.from <= t.to <= |t.after.schedule.entries|
  {
    LoopLog(t, r) + StartLog(t.after.schedule.entries, t.from, t.to, r.stamp) + EndLog(t.ended, r.end)
    + CompletionLog(t, r)
  }

  function Events(log: seq<Logged>): (events: seq<ChaosEvent>)
    ensures |events| == |log|
  {
    seq(|log|, i requires 0 <= i < |log| => log[i].event)
  }

  function EndEvents(ended: seq<ActiveChaos>): seq<ChaosEvent> {
    seq(|ended|, i requires 0 <= i < |ended| => Ended(ended[i].entry))
  }

  lemma TickEvents(t: TickResult, r: Reading)
    requires t.from <= t.to <= |t.after.schedule.entries|
    ensures Events(TickLog(t, r)) ==
      (if t.looped then [ScheduleLooped] else [])
      + Events(StartLog(t.after.schedule.entries, t.from, t.to, r.stamp))
      + EndEvents(t.ended)
      + if t.completed then [ScheduleCompleted] else []
  {
  }

  /** One more item through the filter. */
  lemma FilterStep(active: seq<ActiveChaos>, n: nat, check: nat -> real)
    requires n < |active|
    ensures var kept, gone := Surviving(active[..n], check), Expired(active[..n], check);
      if active[n].IsExpired(check(n)) then
        Surviving(active[..n + 1], check) == kept && Expired(active[..n + 1], check) == gone + [active[n]]
      else
        Surviving(active[..n + 1], check) == kept + [active[n]] && Expired(active[..n + 1], check) == gone
  {
    assert active[..n + 1][..n] == active[..n];
  }

  /** After `seen` looks: what is kept, what is gone, what is still to be looked at. */
  predicate Sifted(all: seq<ActiveChaos>, check: nat -> real, seen: nat,
                   kept: seq<ActiveChaos>, gone: seq<ActiveChaos>, rest: seq<ActiveChaos>) {
    seen <= |all| && rest == all[seen..] && kept == Surviving(all[..seen], check) && gone == Expired(all[..seen], check)
  }

  lemma SiftedNext(all: seq<ActiveChaos>, check: nat -> real, seen: nat,
                   kept: seq<ActiveChaos>, gone: seq<ActiveChaos>, rest: seq<ActiveChaos>)
    requires Sifted(all, check, seen, kept, gone, rest) && rest != []
    ensures if rest[0].IsExpired(check(seen)) then Sifted(all, check, seen + 1, kept, gone + [rest[0]], rest[1..])
            else Sifted(all, check, seen + 1, kept + [rest[0]], gone, rest[1..])
  {
    FilterStep(all, seen, check);
  }

  lemma SiftedOut(all: seq<ActiveChaos>, check: nat -> real, seen: nat,
                  kept: seq<ActiveChaos>, gone: seq<ActiveChaos>, rest: seq<ActiveChaos>)
    requires Sifted(all, check, seen, kept, gone, rest) && rest == []
    ensures kept + rest == Surviving(all, check) && gone == Expired(all, check)
  {
    assert all[..seen] == all && kept + [] == kept;
  }

  lemma EndEventsSnoc(ended: seq<ActiveChaos>, last: ActiveChaos)
    ensures EndEvents(ended + [last]) == EndEvents(ended) + [Ended(last.entry)]
  {
  }

  /** What a tick leaves behind, as far as completion goes. */
  lemma TickCompletes(s: Snapshot, phase: Phase, r: Reading, t: TickResult)
    requires WellFormed(s) && phase.next <= |s.schedule.entries| && t == TickFrom(s, phase, r)
    ensures t.completed <==> !s.schedule.loopSchedule && t.after.next >= |s.schedule.entries| && t.after.active == []
    ensures t.after.state == if t.completed then Completed else s.state
  {
  }

  /** Only active items survive. */
  lemma {:induction false} SurvivorsKeep(active: seq<ActiveChaos>, check: nat -> real)
    ensures forall a :: a in Surviving(active, check) ==> a in active
  {
    if active != [] {
      var n := |active| - 1;
      SurvivorsKeep(active[..n], check);
      assert active == active[..n] + [active[n]];
    }
  }

  lemma TickKeepsWellFormed(s: Snapshot, r: Reading)
    requires WellFormed(s)
    ensures WellFormed(TickOf(s, r).after)
  {
    if Ticking(s) {
      var t := TickOf(s, r);
      var all := s.active + Stamped(s.schedule.entries[t.from..t.to], r.stamp);
      SurvivorsKeep(all, r.check);
      forall i | 0 <= i < |t.after.active|
        ensures t.after.active[i].entry.durationSecs >= 0.0
      {
        assert t.after.active[i] in all;
      }
    }
  }

  // ---------------------------------------------------------------------------
  // The scheduler itself
  // ---------------------------------------------------------------------------

  class ChaosScheduler {
    const schedule: ChaosSchedule
    var state: ScheduleState
    var activeChaos: seq<ActiveChaos>
    var startTime: Option<real>
    var nextEntryIndex: nat
    var loopCount: nat

    ghost function View(): Snapshot
      reads this
    {
      Snapshot(schedule, state, activeChaos, startTime, nextEntryIndex, loopCount)
    }

    constructor (schedule: ChaosSchedule)
      ensures View() == Snapshot(schedule, Stopped, [], None, 0, 0)
    {
      this.schedule := schedule;
      state := Stopped;
      activeChaos := [];
      startTime := None;
      nextEntryIndex := 0;
      loopCount := 0;
    }

    method Start(now: real)
      modifies this
      ensures View() == old(View()).(state := Running, active := [], startTime := Some(now), next := 0, loops := 0)
    {
      startTime := Some(now);
      nextEntryIndex := 0;
      activeChaos := [];
      state := Running;
      loopCount := 0;
    }

    method Stop()
      modifies this
      ensures View() == old(View()).(state := Stopped, active := [], startTime := None)
    {
      startTime := None;
      activeChaos := [];
      state := Stopped;
    }

    method Pause()
      modifies this
      ensures View() == old(View()).(state := if old(state) == Running then Paused else old(state))
    {
      if state == Running {
        state := Paused;
      }
    }

    method Resume()
      modifies this
      ensures View() == old(View()).(state := if old(state) == Paused then Running else old(state))
    {
      if state == Paused {
        state := Running;
      }
    }

    /** Counts the loops that have passed and moves the cursor back. */
    method Loop(elapsed: real) returns (position: Option<real>, events: seq<ChaosEvent>)
      requires WellFormed(View()) && elapsed >= 0.0
      modifies this`loopCount, this`nextEntryIndex
      ensures var p := LoopPhase(old(View()), elapsed);
        && View() == old(View()).(loops := p.loops, next := p.next)
        && position == p.position
        && events == if p.looped then [ScheduleLooped] else []
    {
      position := Some(elapsed);
      events := [];
      if schedule.loopSchedule && schedule.totalDurationSecs.Some? {
        var total := schedule.totalDurationSecs.value;
        if elapsed >= total {
          var loops := LoopsAt(elapsed, total);
          if loops > loopCount {
            loopCount := loops;
            nextEntryIndex := 0;
            events := events + [ScheduleLooped];
          }
          position := Wrapped(elapsed, total);
        }
      }
    }

    /** Starts entries at the cursor for as long as they are due. */
    method StartDue(position: Option<real>, stamp: nat -> real) returns (events: seq<ChaosEvent>)
      requires WellFormed(View())
      modifies this`activeChaos, this`nextEntryIndex
      ensures nextEntryIndex == FirstNotDue(schedule.entries, old(nextEntryIndex), position)
      ensures activeChaos == old(activeChaos) + Stamped(schedule.entries[old(nextEntryIndex)..nextEntryIndex], stamp)
      ensures events == Events(StartLog(schedule.entries, old(nextEntryIndex), nextEntryIndex, stamp))
    {
      events := [];
      ghost var from := nextEntryIndex;
      while nextEntryIndex < |schedule.entries|
        invariant from <= nextEntryIndex <= |schedule.entries|
        invariant FirstNotDue(schedule.entries, from, position)
               == FirstNotDue(schedule.entries, nextEntryIndex, position)
        invariant activeChaos == old(activeChaos) + Stamped(schedule.entries[from..nextEntryIndex], stamp)
        invariant events == Events(StartLog(schedule.entries, from, nextEntryIndex, stamp))
      {
        var entry := schedule.entries[nextEntryIndex];
        if !Due(entry, position) {
          break;
        }
        activeChaos := activeChaos + [ActiveChaos(entry, stamp(|events|))];
        events := events + [Started(entry)];
        nextEntryIndex := nextEntryIndex + 1;
      }
    }

    /** Looks at the item under the index: an expired one is removed, and the index stands. */
    method Look(i: nat, now: real, ghost kept: seq<ActiveChaos>, ghost rest: seq<ActiveChaos>)
      returns (item: ActiveChaos, expired: bool)
      requires i == |kept| && rest != [] && activeChaos == kept + rest
      modifies this`activeChaos
      ensures item == rest[0] && expired == item.IsExpired(now)
      ensures activeChaos == if expired then kept + rest[1..] else kept + [item] + rest[1..]
    {
      item := activeChaos[i];
      expired := item.IsExpired(now);
      assert rest == [item] + rest[1..];
      if expired {
        activeChaos := activeChaos[..i] + activeChaos[i + 1..];
      }
    }

    /** `active_chaos.remove(i)` under a standing index, against the order-keeping filter. */
    method RemoveExpired(check: nat -> real) returns (events: seq<ChaosEvent>)
      modifies this`activeChaos
      ensures activeChaos == Surviving(old(activeChaos), check)
      ensures events == EndEvents(Expired(old(activeChaos), check))
    {
      events := [];
      var i, seen := 0, 0;
      ghost var all, rest := activeChaos, activeChaos;
      ghost var kept: seq<ActiveChaos>, gone: seq<ActiveChaos> := [], [];
      while i < |activeChaos|
        invariant Sifted(all, check, seen, kept, gone, rest)
        invariant activeChaos == kept + rest && i == |kept|
        invariant events == EndEvents(gone)
        decreases |rest|
      {
        SiftedNext(all, check, seen, kept, gone, rest);
        var item, expired := Look(i, check(seen), kept, rest);
        rest := rest[1..];
        if expired {
          EndEventsSnoc(gone, item);
          events := events + [Ended(item.entry)];
          gone := gone + [item];
        } else {
          i := i + 1;
          kept := kept + [item];
        }
        seen := seen + 1;
      }
      SiftedOut(all, check, seen, kept, gone, rest);
    }

    /** Starting and expiring, once looping is settled; completion is left to the caller. */
    method Advance(position: Option<real>, looped: seq<ChaosEvent>, r: Reading, ghost before: Snapshot, ghost phase: Phase,
                   ghost t: TickResult) returns (events: seq<ChaosEvent>)
      requires WellFormed(before) && phase.next <= |before.schedule.entries| && t == TickFrom(before, phase, r)
      requires View() == before.(loops := phase.loops, next := phase.next)
      requires position == phase.position && looped == if phase.looped then [ScheduleLooped] else []
      modifies this`activeChaos, this`nextEntryIndex
      ensures View() == t.after.(state := before.state)
      ensures Events(TickLog(t, r)) == events + if t.completed then [ScheduleCompleted] else []
    {
      var started := StartDue(position, r.stamp);
      var ended := RemoveExpired(r.check);
      events := looped + started + ended;
      TickEvents(t, r);
    }

    /** A schedule that does not loop is complete once everything has started and ended. */
    method Complete() returns (completed: bool)
      modifies this`state
      ensures completed == (!schedule.loopSchedule && nextEntryIndex >= |schedule.entries| && activeChaos == [])
      ensures state == if completed then Completed else old(state)
    {
      completed := !schedule.loopSchedule && nextEntryIndex >= |schedule.entries| && activeChaos == [];
      if completed {
        state := Completed;
      }
    }

    method Tick(r: Reading) returns (events: seq<ChaosEvent>)
      requires WellFormed(View())
      modifies this
      ensures WellFormed(View())
      ensures View() == TickOf(old(View()), r).after
      ensures events == Events(TickLog(TickOf(old(View()), r), r))
    {
      TickKeepsWellFormed(View(), r);
      if state != Running || startTime.None? {
        return [];
      }
      events := RunningTick(r);
    }

    method RunningTick(r: Reading) returns (events: seq<ChaosEvent>)
      requires WellFormed(View()) && Ticking(View())
      modifies this
      ensures View() == TickOf(old(View()), r).after
      ensures events == Events(TickLog(TickOf(old(View()), r), r))
    {
      ghost var before, t := View(), TickOf(View(), r);
      var elapsed := if r.now < startTime.value then 0.0 else r.now - startTime.value;
      ghost var phase := LoopPhase(before, elapsed);
      TickCompletes(before, phase, r, t);
      var position, looped := Loop(elapsed);
      events := Advance(position, looped, r, before, phase, t);
      var completed := Complete();
      if completed {
        events := events + [ScheduleCompleted];
      }
    }
  }
}
