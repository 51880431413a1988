/** A schedule run against the registry, from its start over any number of ticks. */
module ScheduleRegistry {
  import opened Registry
  import opened Scheduler
  import opened ScheduleRuns
  import opened ScheduleDrive
  import opened Wrappers

  datatype Driven = Driven(now: Snapshot, faults: Faults)

  /** `run_schedule`: start, then tick and handle, with nobody else touching the faults. */
  function Drive(schedule: ChaosSchedule, at: real, faults: Faults, readings: seq<Reading>): (d: Driven)
    requires ValidSchedule(schedule)
    ensures WellFormed(d.now) && d.now.schedule == schedule
  {
    if readings == [] then
      Driven(Snapshot(schedule, Running, [], Some(at), 0, 0), faults)
    else
      var before := Drive(schedule, at, faults, readings[..|readings| - 1]);
      var r := readings[|readings| - 1];
      var t := TickOf(before.now, r);
      TickKeepsWellFormed(before.now, r);
      Driven(t.after, HandleAll(before.faults, Events(TickLog(t, r))))
  }

  method RunSchedule(registry: FaultRegistry, schedule: ChaosSchedule, at: real, readings: seq<Reading>)
    returns (scheduler: ChaosScheduler)
    requires ValidSchedule(schedule)
    modifies registry
    ensures scheduler.View() == Drive(schedule, at, old(registry.faults), readings).now
    ensures registry.faults == Drive(schedule, at, old(registry.faults), readings).faults
  {
    scheduler := new ChaosScheduler(schedule);
    scheduler.Start(at);
    for i := 0 to |readings|
      invariant fresh(scheduler)
      invariant scheduler.View() == Drive(schedule, at, old(registry.faults), readings[..i]).now
      invariant registry.faults == Drive(schedule, at, old(registry.faults), readings[..i]).faults
    {
      assert readings[..i + 1][..i] == readings[..i];
      ghost var t := TickOf(scheduler.View(), readings[i]);
      TickCompletionLast(t, readings[i]);
      var events := scheduler.Tick(readings[i]);
      HandleEvents(registry, events);
    }
    assert readings[..|readings|] == readings;
  }

  // ---------------------------------------------------------------------------
  // Any schedule, looping or not, whoever shares a fault
  // ---------------------------------------------------------------------------

  /** After the first `n` ticks the registry shows what the active list says of the fault. */
  ghost predicate ShownAfter(schedule: ChaosSchedule, at: real, faults: Faults, readings: seq<Reading>, id: string, n: nat)
    requires ValidSchedule(schedule) && n <= |readings|
  {
    var d := Drive(schedule, at, faults, readings[..n]);
    id in d.faults && Shows(d.faults[id], d.now.active, id)
  }

  /** In the tick after the first `n`, something that ends undercuts something that goes on. */
  predicate UndercutAt(schedule: ChaosSchedule, at: real, faults: Faults, readings: seq<Reading>, id: string, n: nat)
    requires ValidSchedule(schedule) && n < |readings|
  {
    var t := TickOf(Drive(schedule, at, faults, readings[..n]).now, readings[n]);
    AnyUndercut(t.ended, t.after.active, id)
  }

  ghost predicate AlwaysShown(schedule: ChaosSchedule, at: real, faults: Faults, readings: seq<Reading>, id: string)
    requires ValidSchedule(schedule)
  {
    forall n :: 0 <= n <= |readings| ==> ShownAfter(schedule, at, faults, readings, id, n)
  }

  lemma DriveNext(schedule: ChaosSchedule, at: real, faults: Faults, readings: seq<Reading>, n: nat)
    requires ValidSchedule(schedule) && n < |readings|
    ensures var d := Drive(schedule, at, faults, readings[..n]);
      var t := TickOf(d.now, readings[n]);
      Drive(schedule, at, faults, readings[..n + 1]) == Driven(t.after, HandleAll(d.faults, Events(TickLog(t, readings[n]))))
  {
    assert readings[..n + 1][..n] == readings[..n];
  }

  lemma {:induction false} ShownStep(schedule: ChaosSchedule, at: real, faults: Faults, readings: seq<Reading>, id: string, n: nat)
    requires ValidSchedule(schedule) && n < |readings| && ShownAfter(schedule, at, faults, readings, id, n)
    ensures ShownAfter(schedule, at, faults, readings, id, n + 1) <==> !UndercutAt(schedule, at, faults, readings, id, n)
  {
    var d := Drive(schedule, at, faults, readings[..n]);
    DriveNext(schedule, at, faults, readings, n);
    TickShowsIff(d.faults, d.now, readings[n], id);
  }

  lemma {:induction false} ShownUpTo(schedule: ChaosSchedule, at: real, faults: Faults, readings: seq<Reading>, id: string, n: nat)
    requires ValidSchedule(schedule) && id in faults && SwitchedOff(faults[id]) && n <= |readings|
    requires forall k :: 0 <= k < n ==> !UndercutAt(schedule, at, faults, readings, id, k)
    ensures ShownAfter(schedule, at, faults, readings, id, n)
  {
    if n > 0 {
      ShownUpTo(schedule, at, faults, readings, id, n - 1);
      ShownStep(schedule, at, faults, readings, id, n - 1);
    } else {
      assert readings[..0] == [];
    }
  }

  /**
    Any schedule, any run, a fault that starts switched off: the registry shows
    the fault after every tick if and only if in no tick something that ends
    undercuts something that goes on.
   */
  lemma ShownIff(schedule: ChaosSchedule, at: real, faults: Faults, readings: seq<Reading>, id: string)
    requires ValidSchedule(schedule) && id in faults && SwitchedOff(faults[id])
    ensures AlwaysShown(schedule, at, faults, readings, id) <==>
      forall n :: 0 <= n < |readings| ==> !UndercutAt(schedule, at, faults, readings, id, n)
  {
    if AlwaysShown(schedule, at, faults, readings, id) {
      forall n | 0 <= n < |readings|
        ensures !UndercutAt(schedule, at, faults, readings, id, n)
      {
        assert ShownAfter(schedule, at, faults, readings, id, n) && ShownAfter(schedule, at, faults, readings, id, n + 1);
        ShownStep(schedule, at, faults, readings, id, n);
      }
    } else {
      var n :| 0 <= n <= |readings| && !ShownAfter(schedule, at, faults, readings, id, n);
      if forall k :: 0 <= k < n ==> !UndercutAt(schedule, at, faults, readings, id, k) {
        ShownUpTo(schedule, at, faults, readings, id, n);
      }
    }
  }

  // ---------------------------------------------------------------------------
  // Without looping every entry is started once
  // ---------------------------------------------------------------------------

  /** `where[k]` is the position in the schedule that activation `k` comes from: all different, all before `bound`. */
  ghost predicate Traced(active: seq<ActiveChaos>, entries: seq<ChaosEntry>, where: seq<nat>, bound: nat) {
    && |where| == |active| && bound <= |entries|
    && (forall k :: 0 <= k < |where| ==> where[k] < bound && entries[where[k]] == active[k].entry)
    && forall k, l :: 0 <= k < l < |where| ==> where[k] != where[l]
  }

  lemma TracedSnoc(active: seq<ActiveChaos>, entries: seq<ChaosEntry>, where: seq<nat>, bound: nat, last: ActiveChaos, from: nat)
    requires Traced(active, entries, where, bound) && from < |entries| && entries[from] == last.entry && from !in where
    ensures Traced(active + [last], entries, where + [from], if from < bound then bound else from + 1)
  {
  }

  /** The candidates of a tick are traced once the active list is. */
  lemma {:induction false} TracedStarts(active: seq<ActiveChaos>, entries: seq<ChaosEntry>, where: seq<nat>, from: nat, to: nat,
                                        stamp: nat -> real) returns (all: seq<nat>)
    requires from <= to <= |entries| && Traced(active, entries, where, from)
    ensures Traced(active + Stamped(entries[from..to], stamp), entries, all, to)
    decreases |entries[from..to]|
  {
    var items := Stamped(entries[from..to], stamp);
    if from == to {
      all := where;
      assert active + items == active;
    } else {
      var before := TracedStarts(active, entries, where, from, to - 1, stamp);
      var fewer, last := Stamped(entries[from..to - 1], stamp), ActiveChaos(entries[to - 1], stamp(to - 1 - from));
      assert items == fewer + [last];
      TracedSnoc(active + fewer, entries, before, to - 1, last, to - 1);
      all := before + [to - 1];
      assert active + items == active + fewer + [last];
    }
  }

  lemma {:induction false} TracedSurvivors(all: seq<ActiveChaos>, entries: seq<ChaosEntry>, where: seq<nat>, bound: nat,
                                           check: nat -> real) returns (kept: seq<nat>)
    requires Traced(all, entries, where, bound)
    ensures Traced(Surviving(all, check), entries, kept, bound)
    ensures forall k :: k in kept ==> k in where
    decreases |all|
  {
    kept := [];
    if all != [] {
      var n := |all| - 1;
      kept := TracedSurvivors(all[..n], entries, where[..n], bound, check);
      if !all[n].IsExpired(check(n)) {
        assert where[n] !in where[..n];
        TracedSnoc(Surviving(all[..n], check), entries, kept, bound, all[n], where[n]);
        kept := kept + [where[n]];
      }
    }
  }

  ghost predicate Traceable(s: Snapshot) {
    exists where :: Traced(s.active, s.schedule.entries, where, s.next)
  }

  lemma {:induction false} DriveTraced(schedule: ChaosSchedule, at: real, faults: Faults, readings: seq<Reading>)
    requires ValidSchedule(schedule) && !schedule.loopSchedule
    ensures Traceable(Drive(schedule, at, faults, readings).now)
  {
    if readings == [] {
      assert Traced([], schedule.entries, [], 0);
    } else {
      var s, r := Drive(schedule, at, faults, readings[..|readings| - 1]).now, readings[|readings| - 1];
      DriveTraced(schedule, at, faults, readings[..|readings| - 1]);
      TickTraced(s, r);
    }
  }

  lemma TickTraced(s: Snapshot, r: Reading)
    requires WellFormed(s) && !s.schedule.loopSchedule && Traceable(s)
    ensures Traceable(TickOf(s, r).after)
  {
    var t := TickOf(s, r);
    if Ticking(s) {
      var where :| Traced(s.active, s.schedule.entries, where, s.next);
      var all := TracedStarts(s.active, s.schedule.entries, where, t.from, t.to, r.stamp);
      var kept := TracedSurvivors(Candidates(s, r), s.schedule.entries, all, t.to, r.check);
      assert Traced(t.after.active, s.schedule.entries, kept, t.to);
    }
  }

  /** No entry of positive duration loses something to the end of another. */
  predicate NoUndercuts(entries: seq<ChaosEntry>, id: string) {
    forall i, j :: 0 <= i < |entries| && 0 <= j < |entries| && i != j && entries[j].durationSecs > 0.0
      ==> !Undercuts(entries[i], entries[j], id)
  }

  lemma TickNotUndercut(s: Snapshot, r: Reading, id: string)
    requires WellFormed(s) && !s.schedule.loopSchedule && Traceable(s) && NoUndercuts(s.schedule.entries, id)
    ensures var t := TickOf(s, r); !AnyUndercut(t.ended, t.after.active, id)
  {
    var t, entries := TickOf(s, r), s.schedule.entries;
    if Ticking(s) {
      var where :| Traced(s.active, entries, where, s.next);
      var all := TracedStarts(s.active, entries, where, t.from, t.to, r.stamp);
      FiltersJudge(Candidates(s, r), r.check);
      forall i, j | 0 <= i < |t.ended| && 0 <= j < |t.after.active|
        ensures !Undercuts(t.ended[i].entry, t.after.active[j].entry, id)
      {
        assert t.ended[i] in t.ended && t.after.active[j] in t.after.active;
        ApartNotUndercut(Candidates(s, r), entries, all, t.to, r.check, t.ended[i], t.after.active[j], id);
      }
    }
  }

  /** What has ended and what goes on come from different entries, and the latter has some duration. */
  lemma ApartNotUndercut(all: seq<ActiveChaos>, entries: seq<ChaosEntry>, where: seq<nat>, bound: nat, check: nat -> real,
                         e: ActiveChaos, a: ActiveChaos, id: string)
    requires Traced(all, entries, where, bound) && NoUndercuts(entries, id)
    requires Judged(all, check, e, true) && Judged(all, check, a, false)
    ensures !Undercuts(e.entry, a.entry, id)
  {
    var p :| 0 <= p < |all| && all[p] == e && e.IsExpired(check(p));
    var q :| 0 <= q < |all| && all[q] == a && !a.IsExpired(check(q));
    assert where[p] != where[q] by {
      assert p != q;
    }
    assert a.entry.durationSecs > 0.0;
  }

  /** A schedule without looping and without undercuts shows the fault on every run. */
  lemma NoUndercutsShown(schedule: ChaosSchedule, at: real, faults: Faults, readings: seq<Reading>, id: string)
    requires ValidSchedule(schedule) && !schedule.loopSchedule && NoUndercuts(schedule.entries, id)
    requires id in faults && SwitchedOff(faults[id])
    ensures AlwaysShown(schedule, at, faults, readings, id)
  {
    forall n | 0 <= n < |readings|
      ensures !UndercutAt(schedule, at, faults, readings, id, n)
    {
      DriveTraced(schedule, at, faults, readings[..n]);
      TickNotUndercut(Drive(schedule, at, faults, readings[..n]).now, readings[n], id);
    }
    ShownIff(schedule, at, faults, readings, id);
  }
}
