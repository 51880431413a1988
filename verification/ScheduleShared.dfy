/**
  Schedules whose entries share faults: exactly which of them the registry
  follows on every run, and what it then says of a device.
 */
module ScheduleShared {
  import opened Registry
  import opened Scheduler
  import opened ScheduleRuns
  import opened ScheduleDrive
  import opened ScheduleRegistry
  import opened Wrappers

  // ---------------------------------------------------------------------------
  // Every run of a clock that does not go back
  // ---------------------------------------------------------------------------

  /** The readings of one tick follow each other. */
  ghost predicate Rising(r: Reading) {
    r.Ordered() && forall i: nat, j: nat :: i <= j ==> r.stamp(i) <= r.stamp(j) && r.check(i) <= r.check(j)
  }

  ghost predicate Clocked(at: real, readings: seq<Reading>) {
    && (forall n :: 0 <= n < |readings| ==> Rising(readings[n]))
    && (readings != [] ==> at <= readings[0].now)
    && forall n :: 0 < n < |readings| ==> readings[n - 1].end <= readings[n].now
  }

  /** The registry shows the fault after every tick of every run. */
  ghost predicate ShownOnEveryRun(schedule: ChaosSchedule, faults: Faults, id: string)
    requires ValidSchedule(schedule)
  {
    forall at: real, readings :: Clocked(at, readings) ==> AlwaysShown(schedule, at, faults, readings, id)
  }

  /** A time by which every entry is due. */
  function Horizon(entries: seq<ChaosEntry>): (t: real)
    ensures t >= 0.0 && forall i :: 0 <= i < |entries| ==> entries[i].startSecs <= t
  {
    if entries == [] then 0.0
    else
      var before, last := Horizon(entries[..|entries| - 1]), entries[|entries| - 1].startSecs;
      if last > before then last else before
  }

  /**
    A single tick late enough to start everything, in which entry `i` is over
    when it is looked at and entry `j` is not: the clock moves on by the
    duration of `i` after `i` is started, or before `i` is looked at.
   */
  function Parting(entries: seq<ChaosEntry>, i: nat, j: nat): Reading
    requires i < |entries|
  {
    var t, d := Horizon(entries), entries[i].durationSecs;
    if i < j then Reading(t, k => if k <= i then t else t + d, _ => t + d, t + d)
    else Reading(t, _ => t, k => if k < i then t else t + d, t + d)
  }

  lemma PartingRises(entries: seq<ChaosEntry>, i: nat, j: nat)
    requires i < |entries| && entries[i].durationSecs >= 0.0
    ensures Rising(Parting(entries, i, j)) && Parting(entries, i, j).now >= 0.0
  {
  }

  lemma PartingTimes(entries: seq<ChaosEntry>, i: nat, j: nat)
    requires i < |entries| && j < |entries| && i != j
    requires entries[i].durationSecs >= 0.0 && entries[j].durationSecs > 0.0
    ensures var r := Parting(entries, i, j);
      && ActiveChaos(entries[i], r.stamp(i)).IsExpired(r.check(i))
      && !ActiveChaos(entries[j], r.stamp(j)).IsExpired(r.check(j))
  {
  }

  /** A first tick at the horizon starts everything. */
  lemma LateTick(s: Snapshot, r: Reading)
    requires WellFormed(s) && !s.schedule.loopSchedule && s == Snapshot(s.schedule, Running, [], Some(0.0), 0, 0)
    requires r.now == Horizon(s.schedule.entries)
    ensures var t, all := TickOf(s, r), Stamped(s.schedule.entries, r.stamp);
      t.ended == Expired(all, r.check) && t.after.active == Surviving(all, r.check)
  {
    var entries := s.schedule.entries;
    assert FirstNotDue(entries, 0, Some(r.now)) == |entries|;
    assert entries[0..|entries|] == entries;
    assert [] + Stamped(entries, r.stamp) == Stamped(entries, r.stamp);
  }

  lemma FoundIn(all: seq<ActiveChaos>, a: ActiveChaos)
    requires a in all
    ensures exists k :: 0 <= k < |all| && all[k].entry == a.entry
  {
    var k :| 0 <= k < |all| && all[k] == a;
    assert all[k].entry == a.entry;
  }

  /** The tick does part the two. */
  lemma PartingParts(s: Snapshot, i: nat, j: nat)
    requires WellFormed(s) && !s.schedule.loopSchedule && s == Snapshot(s.schedule, Running, [], Some(0.0), 0, 0)
    requires i < |s.schedule.entries| && j < |s.schedule.entries| && i != j && s.schedule.entries[j].durationSecs > 0.0
    ensures var t := TickOf(s, Parting(s.schedule.entries, i, j));
      && (exists k :: 0 <= k < |t.ended| && t.ended[k].entry == s.schedule.entries[i])
      && (exists k :: 0 <= k < |t.after.active| && t.after.active[k].entry == s.schedule.entries[j])
  {
    var r := Parting(s.schedule.entries, i, j);
    var all := Stamped(s.schedule.entries, r.stamp);
    LateTick(s, r);
    PartingTimes(s.schedule.entries, i, j);
    FiltersJudge(all, r.check);
    assert Judged(all, r.check, all[i], true) && Judged(all, r.check, all[j], false);
    FoundIn(Expired(all, r.check), all[i]);
    FoundIn(Surviving(all, r.check), all[j]);
  }

  lemma UndercutShows(schedule: ChaosSchedule, faults: Faults, id: string, i: nat, j: nat)
    requires ValidSchedule(schedule) && !schedule.loopSchedule && id in faults && SwitchedOff(faults[id])
    requires i < |schedule.entries| && j < |schedule.entries| && i != j
    requires schedule.entries[j].durationSecs > 0.0 && Undercuts(schedule.entries[i], schedule.entries[j], id)
    ensures var readings := [Parting(schedule.entries, i, j)];
      Clocked(0.0, readings) && !AlwaysShown(schedule, 0.0, faults, readings, id)
  {
    var r := Parting(schedule.entries, i, j);
    PartingRises(schedule.entries, i, j);
    assert [r][..0] == [];
    var s := Drive(schedule, 0.0, faults, []).now;
    PartingParts(s, i, j);
    assert UndercutAt(schedule, 0.0, faults, [r], id, 0);
    ShownIff(schedule, 0.0, faults, [r], id);
  }

  /**
    What can be told from the schedule alone: without looping, the registry
    shows a fault on every run if and only if no entry undercuts another entry
    of positive duration.
   */
  lemma ShownOnEveryRunIff(schedule: ChaosSchedule, faults: Faults, id: string)
    requires ValidSchedule(schedule) && !schedule.loopSchedule && id in faults && SwitchedOff(faults[id])
    ensures ShownOnEveryRun(schedule, faults, id) <==> NoUndercuts(schedule.entries, id)
  {
    if NoUndercuts(schedule.entries, id) {
      forall at: real, readings | Clocked(at, readings)
        ensures AlwaysShown(schedule, at, faults, readings, id)
      {
        NoUndercutsShown(schedule, at, faults, readings, id);
      }
    } else {
      var i, j :| 0 <= i < |schedule.entries| && 0 <= j < |schedule.entries| && i != j
        && schedule.entries[j].durationSecs > 0.0 && Undercuts(schedule.entries[i], schedule.entries[j], id);
      UndercutShows(schedule, faults, id, i, j);
    }
  }

  // ---------------------------------------------------------------------------
  // What the registry then says of a device
  // ---------------------------------------------------------------------------

  /** The fault is active for a device exactly when an active entry of the fault hits the device. */
  lemma SharedFaultFollows(schedule: ChaosSchedule, at: real, faults: Faults, readings: seq<Reading>, id: string, device: string)
    requires ValidSchedule(schedule) && !schedule.loopSchedule && NoUndercuts(schedule.entries, id)
    requires id in faults && SwitchedOff(faults[id])
    ensures var d := Drive(schedule, at, faults, readings);
      && id in d.faults
      && (d.faults[id].IsActiveFor(device) <==>
            exists i :: 0 <= i < |d.now.active| && Switches(d.now.active[i].entry, id) && Hits(d.now.active[i].entry, device))
  {
    var d := Drive(schedule, at, faults, readings);
    NoUndercutsShown(schedule, at, faults, readings, id);
    assert ShownAfter(schedule, at, faults, readings, id, |readings|) && readings[..|readings|] == readings;
    ShownMeansHits(d.faults[id], d.now.active, id, device);
  }

  predicate DistinctIds(entries: seq<ChaosEntry>) {
    forall i, j :: 0 <= i < j < |entries| && FaultId(entries[i]).Some? ==> FaultId(entries[i]) != FaultId(entries[j])
  }

  predicate IsActive(s: Snapshot, entry: ChaosEntry) {
    exists i :: 0 <= i < |s.active| && s.active[i].entry == entry
  }

  /** Entries with faults of their own do not undercut each other. */
  lemma OwnFaultsNoUndercuts(entries: seq<ChaosEntry>, id: string)
    requires DistinctIds(entries)
    ensures NoUndercuts(entries, id)
  {
    forall i, j | 0 <= i < |entries| && 0 <= j < |entries| && i != j
      ensures !Undercuts(entries[i], entries[j], id)
    {
      assert i < j || j < i;
    }
  }

  /**
    One fault per entry: after the events of every tick are handled, the fault
    of an entry is active for a device exactly when the entry is in the active
    list and names no target or a matching one.
   */
  lemma ScheduleDrivesRegistry(schedule: ChaosSchedule, at: real, faults: Faults, readings: seq<Reading>,
                               k: nat, device: string)
    requires ValidSchedule(schedule) && !schedule.loopSchedule && DistinctIds(schedule.entries)
    requires k < |schedule.entries| && FaultId(schedule.entries[k]).Some?
    requires var id := FaultId(schedule.entries[k]).value; id in faults && SwitchedOff(faults[id])
    ensures var d, entry := Drive(schedule, at, faults, readings), schedule.entries[k];
      && FaultId(entry).value in d.faults
      && (d.faults[FaultId(entry).value].IsActiveFor(device) <==> IsActive(d.now, entry) && Hits(entry, device))
  {
    var d, entry := Drive(schedule, at, faults, readings), schedule.entries[k];
    var id := FaultId(entry).value;
    OwnFaultsNoUndercuts(schedule.entries, id);
    SharedFaultFollows(schedule, at, faults, readings, id, device);
    DriveTraced(schedule, at, faults, readings);
    OnlyOwner(d.now, k, id);
  }

  lemma OnlyOwner(s: Snapshot, k: nat, id: string)
    requires DistinctIds(s.schedule.entries) && Traceable(s)
    requires k < |s.schedule.entries| && Switches(s.schedule.entries[k], id)
    ensures forall i :: 0 <= i < |s.active| && Switches(s.active[i].entry, id) ==> s.active[i].entry == s.schedule.entries[k]
  {
    var where :| Traced(s.active, s.schedule.entries, where, s.next);
    forall i | 0 <= i < |s.active| && Switches(s.active[i].entry, id)
      ensures s.active[i].entry == s.schedule.entries[k]
    {
      assert s.schedule.entries[where[i]] == s.active[i].entry;
      assert where[i] == k;
    }
  }

  // ---------------------------------------------------------------------------
  // Faults the schedule does not name
  // ---------------------------------------------------------------------------

  predicate Named(entries: seq<ChaosEntry>, id: string) {
    exists i :: 0 <= i < |entries| && Switches(entries[i], id)
  }

  predicate Silent(active: seq<ActiveChaos>, id: string) {
    forall i :: 0 <= i < |active| ==> !Switches(active[i].entry, id)
  }

  lemma FiltersSilent(all: seq<ActiveChaos>, check: nat -> real, id: string)
    requires Silent(all, id)
    ensures Silent(Surviving(all, check), id) && Silent(Expired(all, check), id)
  {
    var kept, gone := Surviving(all, check), Expired(all, check);
    FiltersJudge(all, check);
    assert forall i :: 0 <= i < |kept| ==> kept[i] in kept;
    assert forall i :: 0 <= i < |gone| ==> gone[i] in gone;
  }

  lemma StampedSilent(entries: seq<ChaosEntry>, from: nat, to: nat, stamp: nat -> real, id: string)
    requires from <= to <= |entries| && !Named(entries, id)
    ensures Silent(Stamped(entries[from..to], stamp), id)
  {
    var items := Stamped(entries[from..to], stamp);
    assert forall i :: 0 <= i < |items| ==> items[i].entry == entries[from + i];
  }

  lemma SilentHandled(faults: Faults, started: seq<ActiveChaos>, ended: seq<ActiveChaos>, id: string)
    requires id in faults && Silent(started, id) && Silent(ended, id)
    ensures var after := HandleAll(HandleAll(faults, StartEvents(started)), EndEvents(ended));
      id in after && after[id] == faults[id]
  {
    OthersKept(faults, StartEvents(started), id);
    OthersKept(HandleAll(faults, StartEvents(started)), EndEvents(ended), id);
  }

  lemma TickSilent(s: Snapshot, r: Reading, id: string)
    requires WellFormed(s) && !Named(s.schedule.entries, id) && Silent(s.active, id)
    ensures var t := TickOf(s, r);
      && Silent(Stamped(s.schedule.entries[t.from..t.to], r.stamp), id)
      && Silent(t.ended, id) && Silent(t.after.active, id)
  {
    var t := TickOf(s, r);
    StampedSilent(s.schedule.entries, t.from, t.to, r.stamp, id);
    if Ticking(s) {
      FiltersSilent(s.active + Stamped(s.schedule.entries[t.from..t.to], r.stamp), r.check, id);
    }
  }

  /** A tick of a schedule that does not name the fault leaves it alone. */
  lemma TickKeepsOther(faults: Faults, s: Snapshot, r: Reading, id: string)
    requires WellFormed(s) && id in faults && !Named(s.schedule.entries, id) && Silent(s.active, id)
    ensures var t := TickOf(s, r);
      var after := HandleAll(faults, Events(TickLog(t, r)));
      id in after && after[id] == faults[id] && Silent(t.after.active, id)
  {
    var t := TickOf(s, r);
    TickSilent(s, r, id);
    HandleTick(faults, t, r);
    SilentHandled(faults, Stamped(s.schedule.entries[t.from..t.to], r.stamp), t.ended, id);
  }

  /** Faults that no entry names keep their registry entries, on every run. */
  lemma {:induction false} OtherFaultsKept(schedule: ChaosSchedule, at: real, faults: Faults, readings: seq<Reading>, id: string)
    requires ValidSchedule(schedule) && id in faults && !Named(schedule.entries, id)
    ensures var d := Drive(schedule, at, faults, readings);
      id in d.faults && d.faults[id] == faults[id] && Silent(d.now.active, id)
  {
    if readings != [] {
      var front, r := readings[..|readings| - 1], readings[|readings| - 1];
      var d := Drive(schedule, at, faults, front);
      OtherFaultsKept(schedule, at, faults, front, id);
      TickKeepsOther(d.faults, d.now, r, id);
    }
  }

  // ---------------------------------------------------------------------------
  // A schedule that fails
  // ---------------------------------------------------------------------------

  /** One fault, switched for everything from the start, for the given time. */
  function OnFor(secs: real): ChaosEntry {
    ChaosEntry(0.0, secs, [], FAULT_PREFIX + "f")
  }

  /** On for one second and, overlapping, for nine: some run leaves the fault off under the longer entry. */
  lemma SharedFaultFails(faults: Faults)
    requires "f" in faults && SwitchedOff(faults["f"])
    ensures var schedule := ChaosSchedule([OnFor(1.0), OnFor(9.0)], false, None);
      ValidSchedule(schedule) && !ShownOnEveryRun(schedule, faults, "f")
  {
    var schedule := ChaosSchedule([OnFor(1.0), OnFor(9.0)], false, None);
    var entries := schedule.entries;
    assert (FAULT_PREFIX + "f")[..|FAULT_PREFIX|] == FAULT_PREFIX && (FAULT_PREFIX + "f")[|FAULT_PREFIX|..] == "f";
    assert Undercuts(entries[0], entries[1], "f") && entries[1].durationSecs > 0.0;
    ShownOnEveryRunIff(schedule, faults, "f");
  }
}
