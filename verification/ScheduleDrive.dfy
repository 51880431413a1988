/**
  How a schedule drives the fault registry (`run_schedule` and its helpers in
  crates/mabi-chaos/src/runtime.rs): the events of every tick switch faults on
  and off, and the registry then mirrors the scheduler's active list.
 */
module ScheduleDrive {
  import opened Glob
  import opened Registry
  import opened Scheduler
  import opened ScheduleRuns
  import opened Wrappers

  const FAULT_PREFIX := "__fault_id="

  /** `scheduled_fault_id`: the description behind the prefix. */
  function FaultId(entry: ChaosEntry): Option<string> {
    if StartsWith(entry.description, FAULT_PREFIX) then Some(entry.description[|FAULT_PREFIX|..]) else None
  }

  /** The fault of an entry is what stands behind the prefix, and nothing else is. */
  lemma FaultIdIs(entry: ChaosEntry, id: string)
    ensures FaultId(entry) == Some(id) <==> entry.description == "__fault_id=" + id
  {
    var d := entry.description;
    assert StartsWith(d, FAULT_PREFIX) ==> d == FAULT_PREFIX + d[|FAULT_PREFIX|..];
    if d == FAULT_PREFIX + id {
      assert d[..|FAULT_PREFIX|] == FAULT_PREFIX && d[|FAULT_PREFIX|..] == id;
    }
  }

  function ActivateAll(faults: Faults, id: string, targets: seq<string>): Faults {
    if targets == [] then faults
    else Apply(ActivateAll(faults, id, targets[..|targets| - 1]), Activate(id, targets[|targets| - 1]))
  }

  function DeactivateAll(faults: Faults, id: string, targets: seq<string>): Faults {
    if targets == [] then faults
    else Apply(DeactivateAll(faults, id, targets[..|targets| - 1]), Deactivate(id, targets[|targets| - 1]))
  }

  function Handle(faults: Faults, event: ChaosEvent): Faults {
    match event
    case Started(entry) =>
      (match FaultId(entry)
       case None => faults
       case Some(id) =>
         if entry.targets == [] then Apply(faults, ActivateGlobally(id)) else ActivateAll(faults, id, entry.targets))
    case Ended(entry) =>
      (match FaultId(entry)
       case None => faults
       case Some(id) =>
         if entry.targets == [] then Apply(faults, DeactivateGlobally(id)) else DeactivateAll(faults, id, entry.targets))
    case _ => faults
  }

  function HandleAll(faults: Faults, events: seq<ChaosEvent>): Faults {
    if events == [] then faults
    else Handle(HandleAll(faults, events[..|events| - 1]), events[|events| - 1])
  }

  // ---------------------------------------------------------------------------
  // The handlers themselves
  // ---------------------------------------------------------------------------

  method ActivateEntry(registry: FaultRegistry, id: string, entry: ChaosEntry)
    requires FaultId(entry) == Some(id)
    modifies registry
    ensures registry.faults == Handle(old(registry.faults), Started(entry))
  {
    if entry.targets == [] {
      var _ := registry.ActivateGlobally(id);
    } else {
      for i := 0 to |entry.targets|
        invariant registry.faults == ActivateAll(old(registry.faults), id, entry.targets[..i])
      {
        assert entry.targets[..i + 1][..i] == entry.targets[..i];
        var _ := registry.Activate(id, entry.targets[i]);
      }
      assert entry.targets[..|entry.targets|] == entry.targets;
    }
  }

  method DeactivateEntry(registry: FaultRegistry, id: string, entry: ChaosEntry)
    requires FaultId(entry) == Some(id)
    modifies registry
    ensures registry.faults == Handle(old(registry.faults), Ended(entry))
  {
    if entry.targets == [] {
      var _ := registry.DeactivateGlobally(id);
    } else {
      for i := 0 to |entry.targets|
        invariant registry.faults == DeactivateAll(old(registry.faults), id, entry.targets[..i])
      {
        assert entry.targets[..i + 1][..i] == entry.targets[..i];
        var _ := registry.Deactivate(id, entry.targets[i]);
      }
      assert entry.targets[..|entry.targets|] == entry.targets;
    }
  }

  /** Completion is reported last, so leaving the loop there skips nothing. */
  predicate CompletionLast(events: seq<ChaosEvent>) {
    forall i :: 0 <= i < |events| - 1 ==> !events[i].ScheduleCompleted?
  }

  /** The event loop of `run_schedule`; its `break` on completion only ends this loop. */
  method HandleEvents(registry: FaultRegistry, events: seq<ChaosEvent>)
    requires CompletionLast(events)
    modifies registry
    ensures registry.faults == HandleAll(old(registry.faults), events)
  {
    var i := 0;
    while i < |events|
      invariant 0 <= i <= |events|
      invariant registry.faults == HandleAll(old(registry.faults), events[..i])
    {
      assert events[..i + 1][..i] == events[..i];
      match events[i] {
        case Started(entry) =>
          if FaultId(entry).Some? {
            ActivateEntry(registry, FaultId(entry).value, entry);
          }
        case Ended(entry) =>
          if FaultId(entry).Some? {
            DeactivateEntry(registry, FaultId(entry).value, entry);
          }
        case ScheduleCompleted =>
          i := i + 1;
          break;
        case ScheduleLooped =>
      }
      i := i + 1;
    }
    assert events[..|events|] == events;
  }

  // ---------------------------------------------------------------------------
  // One event
  // ---------------------------------------------------------------------------

  predicate SwitchedOff(fault: FaultEntry) {
    !fault.globallyActive && fault.activeTargets == []
  }

  /** An entry hits a device when it names no target or one that matches. */
  predicate Hits(entry: ChaosEntry, device: string) {
    entry.targets == [] || AnyMatches(entry.targets, device)
  }

  predicate Switches(entry: ChaosEntry, id: string) {
    FaultId(entry) == Some(id)
  }

  lemma {:induction false} ActivateAllEffect(faults: Faults, id: string, targets: seq<string>)
    ensures var after := ActivateAll(faults, id, targets);
      && after.Keys == faults.Keys
      && (forall other :: other in faults && other != id ==> after[other] == faults[other])
      && (id in faults ==>
            && after[id].globallyActive == faults[id].globallyActive
            && forall x :: x in after[id].activeTargets <==> x in faults[id].activeTargets || x in targets)
  {
    if targets != [] {
      ActivateAllEffect(faults, id, targets[..|targets| - 1]);
      assert targets == targets[..|targets| - 1] + [targets[|targets| - 1]];
    }
  }

  lemma {:induction false} DeactivateAllEffect(faults: Faults, id: string, targets: seq<string>)
    ensures var after := DeactivateAll(faults, id, targets);
      && after.Keys == faults.Keys
      && (forall other :: other in faults && other != id ==> after[other] == faults[other])
      && (id in faults ==>
            && after[id].globallyActive == faults[id].globallyActive
            && forall x :: x in after[id].activeTargets <==> x in faults[id].activeTargets && x !in targets)
  {
    if targets != [] {
      DeactivateAllEffect(faults, id, targets[..|targets| - 1]);
      assert targets == targets[..|targets| - 1] + [targets[|targets| - 1]];
    }
  }

  /** A start adds to its own fault: the global flag, or its targets. */
  lemma StartedEffect(faults: Faults, entry: ChaosEntry, id: string)
    requires id in faults
    ensures var after := Handle(faults, Started(entry));
      && after.Keys == faults.Keys
      && (!Switches(entry, id) ==> after[id] == faults[id])
      && (Switches(entry, id) ==>
            && (after[id].globallyActive <==> faults[id].globallyActive || entry.targets == [])
            && forall x :: x in after[id].activeTargets <==> x in faults[id].activeTargets || x in entry.targets)
  {
    if FaultId(entry).Some? {
      ActivateAllEffect(faults, FaultId(entry).value, entry.targets);
    }
  }

  /** An end takes from its own fault: its targets, or everything. */
  lemma EndedEffect(faults: Faults, entry: ChaosEntry, id: string)
    requires id in faults
    ensures var after := Handle(faults, Ended(entry));
      && after.Keys == faults.Keys
      && (!Switches(entry, id) ==> after[id] == faults[id])
      && (Switches(entry, id) ==>
            && (after[id].globallyActive <==> faults[id].globallyActive && entry.targets != [])
            && forall x :: x in after[id].activeTargets <==>
                 x in faults[id].activeTargets && entry.targets != [] && x !in entry.targets)
  {
    if FaultId(entry).Some? {
      DeactivateAllEffect(faults, FaultId(entry).value, entry.targets);
    }
  }

  // ---------------------------------------------------------------------------
  // What the registry should show of the active list
  // ---------------------------------------------------------------------------

  /** Some activation of the fault has no targets. */
  predicate NamesAll(active: seq<ActiveChaos>, id: string) {
    exists i :: 0 <= i < |active| && Switches(active[i].entry, id) && active[i].entry.targets == []
  }

  /** Some activation of the fault names the target. */
  predicate NamesTarget(active: seq<ActiveChaos>, id: string, x: string) {
    exists i :: 0 <= i < |active| && Switches(active[i].entry, id) && x in active[i].entry.targets
  }

  /** The registry entry of a fault says what the active list says, whoever shares the fault. */
  ghost predicate Shows(fault: FaultEntry, active: seq<ActiveChaos>, id: string) {
    && (fault.globallyActive <==> NamesAll(active, id))
    && forall x :: x in fault.activeTargets <==> NamesTarget(active, id, x)
  }

  /** A shown fault is active for a device exactly when an active entry of it hits the device. */
  lemma ShownMeansHits(fault: FaultEntry, active: seq<ActiveChaos>, id: string, device: string)
    requires Shows(fault, active, id)
    ensures fault.IsActiveFor(device) <==>
      exists i :: 0 <= i < |active| && Switches(active[i].entry, id) && Hits(active[i].entry, device)
  {
    AnyMatchesIs(fault.activeTargets, device);
    forall i | 0 <= i < |active| && Switches(active[i].entry, id) && Hits(active[i].entry, device)
      ensures fault.IsActiveFor(device)
    {
      AnyMatchesIs(active[i].entry.targets, device);
      assert active[i].entry.targets == [] ==> NamesAll(active, id);
      assert forall x :: x in active[i].entry.targets ==> NamesTarget(active, id, x);
    }
    if fault.IsActiveFor(device) {
      if NamesAll(active, id) {
        var i :| 0 <= i < |active| && Switches(active[i].entry, id) && active[i].entry.targets == [];
        assert Hits(active[i].entry, device);
      } else {
        var x :| x in fault.activeTargets && Matches(x, device);
        var i :| 0 <= i < |active| && Switches(active[i].entry, id) && x in active[i].entry.targets;
        AnyMatchesIs(active[i].entry.targets, device);
      }
    }
  }

  lemma NamesSnoc(active: seq<ActiveChaos>, last: ActiveChaos, id: string)
    ensures NamesAll(active + [last], id) <==>
      NamesAll(active, id) || (Switches(last.entry, id) && last.entry.targets == [])
    ensures forall x :: NamesTarget(active + [last], id, x) <==>
      NamesTarget(active, id, x) || (Switches(last.entry, id) && x in last.entry.targets)
  {
    var all, n := active + [last], |active|;
    assert all[n] == last && forall i :: 0 <= i < n ==> all[i] == active[i];
  }

  // ---------------------------------------------------------------------------
  // The events of one tick
  // ---------------------------------------------------------------------------

  function StartEvents(items: seq<ActiveChaos>): seq<ChaosEvent> {
    seq(|items|, i requires 0 <= i < |items| => Started(items[i].entry))
  }

  lemma {:induction false} HandleConcat(faults: Faults, a: seq<ChaosEvent>, b: seq<ChaosEvent>)
    ensures HandleAll(faults, a + b) == HandleAll(HandleAll(faults, a), b)
  {
    if b == [] {
      assert a + b == a;
    } else {
      HandleConcat(faults, a, b[..|b| - 1]);
      assert (a + b)[..|a + b| - 1] == a + b[..|b| - 1];
    }
  }

  /** Handling starts one after the other keeps a fault shown. */
  lemma {:induction false} StartsShow(faults: Faults, active: seq<ActiveChaos>, items: seq<ActiveChaos>, id: string)
    requires id in faults && Shows(faults[id], active, id)
    ensures var after := HandleAll(faults, StartEvents(items));
      after.Keys == faults.Keys && Shows(after[id], active + items, id)
  {
    if items == [] {
      assert active + items == active;
    } else {
      var front, last := items[..|items| - 1], items[|items| - 1];
      StartsShow(faults, active, front, id);
      assert StartEvents(items)[..|items| - 1] == StartEvents(front);
      StartedEffect(HandleAll(faults, StartEvents(front)), last.entry, id);
      NamesSnoc(active + front, last, id);
      assert active + items == active + front + [last];
    }
  }

  /** Handling ends one after the other: what is left of a fault. */
  lemma {:induction false} EndsLeave(faults: Faults, ended: seq<ActiveChaos>, id: string)
    requires id in faults
    ensures var after := HandleAll(faults, EndEvents(ended));
      && after.Keys == faults.Keys
      && (after[id].globallyActive <==> faults[id].globallyActive && !NamesAll(ended, id))
      && forall x :: x in after[id].activeTargets <==>
           x in faults[id].activeTargets && !NamesAll(ended, id) && !NamesTarget(ended, id, x)
  {
    if ended != [] {
      var front, last := ended[..|ended| - 1], ended[|ended| - 1];
      EndsLeave(faults, front, id);
      assert EndEvents(ended)[..|ended| - 1] == EndEvents(front);
      EndedEffect(HandleAll(faults, EndEvents(front)), last.entry, id);
      NamesSnoc(front, last, id);
      assert ended == front + [last];
    }
  }

  /** Every activation is kept or gone. */
  lemma {:induction false} FiltersCover(active: seq<ActiveChaos>, check: nat -> real, id: string)
    ensures var kept, gone := Surviving(active, check), Expired(active, check);
      && (NamesAll(active, id) <==> NamesAll(kept, id) || NamesAll(gone, id))
      && forall x :: NamesTarget(active, id, x) <==> NamesTarget(kept, id, x) || NamesTarget(gone, id, x)
  {
    if active != [] {
      var n := |active| - 1;
      var front, last := active[..n], active[n];
      FiltersCover(front, check, id);
      FilterStep(active, n, check);
      assert active[..n + 1] == active == front + [last];
      NamesSnoc(front, last, id);
      NamesSnoc(Surviving(front, check), last, id);
      NamesSnoc(Expired(front, check), last, id);
    }
  }

  // ---------------------------------------------------------------------------
  // When an end undercuts what goes on
  // ---------------------------------------------------------------------------

  predicate Meet(a: seq<string>, b: seq<string>) {
    exists i :: 0 <= i < |a| && a[i] in b
  }

  /** The end of `e` takes something away that `a` needs. */
  predicate Undercuts(e: ChaosEntry, a: ChaosEntry, id: string) {
    Switches(e, id) && Switches(a, id) && (e.targets == [] || Meet(e.targets, a.targets))
  }

  predicate AnyUndercut(ended: seq<ActiveChaos>, kept: seq<ActiveChaos>, id: string) {
    exists i, j :: 0 <= i < |ended| && 0 <= j < |kept| && Undercuts(ended[i].entry, kept[j].entry, id)
  }

  lemma UndercutMeans(ended: seq<ActiveChaos>, kept: seq<ActiveChaos>, id: string)
    ensures !AnyUndercut(ended, kept, id) <==>
      && (NamesAll(ended, id) ==> !NamesAll(kept, id))
      && forall x :: NamesTarget(kept, id, x) ==> !NamesAll(ended, id) && !NamesTarget(ended, id, x)
  {
    if i, j :| 0 <= i < |ended| && 0 <= j < |kept| && Undercuts(ended[i].entry, kept[j].entry, id) {
      var e, a := ended[i].entry, kept[j].entry;
      assert e.targets == [] ==> NamesAll(ended, id);
      assert a.targets == [] ==> NamesAll(kept, id);
      assert a.targets != [] ==> a.targets[0] in a.targets && NamesTarget(kept, id, a.targets[0]);
      if Meet(e.targets, a.targets) {
        var k :| 0 <= k < |e.targets| && e.targets[k] in a.targets;
        assert NamesTarget(ended, id, e.targets[k]) && NamesTarget(kept, id, e.targets[k]);
      }
    } else {
      forall x, i, j | 0 <= i < |ended| && 0 <= j < |kept| && Switches(ended[i].entry, id) && Switches(kept[j].entry, id)
                       && x in kept[j].entry.targets
        ensures ended[i].entry.targets != [] && x !in ended[i].entry.targets
      {
        assert !Undercuts(ended[i].entry, kept[j].entry, id);
      }
    }
  }

  /** The active list of a tick before anything expires. */
  function Candidates(s: Snapshot, r: Reading): seq<ActiveChaos>
    requires WellFormed(s)
  {
    var t := TickOf(s, r);
    s.active + Stamped(s.schedule.entries[t.from..t.to], r.stamp)
  }

  lemma HandleSingle(faults: Faults, event: ChaosEvent)
    ensures HandleAll(faults, [event]) == Handle(faults, event)
    ensures HandleAll(faults, []) == faults
  {
    assert [event][..0] == [];
    assert HandleAll(faults, [event][..0]) == faults;
  }

  lemma HandleFour(faults: Faults, looped: bool, starts: seq<ChaosEvent>, ends: seq<ChaosEvent>, completed: bool)
    ensures HandleAll(faults, (if looped then [ScheduleLooped] else []) + starts + ends
                              + if completed then [ScheduleCompleted] else [])
         == HandleAll(HandleAll(faults, starts), ends)
  {
    var loops := if looped then [ScheduleLooped] else [];
    var done := if completed then [ScheduleCompleted] else [];
    HandleConcat(faults, loops + starts + ends, done);
    HandleConcat(faults, loops + starts, ends);
    HandleConcat(faults, loops, starts);
    HandleSingle(faults, ScheduleLooped);
    HandleSingle(HandleAll(faults, loops + starts + ends), ScheduleCompleted);
  }

  /** The events of a tick, handled in order, are the starts and then the ends. */
  lemma HandleTick(faults: Faults, t: TickResult, r: Reading)
    requires t.from <= t.to <= |t.after.schedule.entries|
    ensures HandleAll(faults, Events(TickLog(t, r)))
         == HandleAll(HandleAll(faults, StartEvents(Stamped(t.after.schedule.entries[t.from..t.to], r.stamp))),
                      EndEvents(t.ended))
  {
    var starts := StartEvents(Stamped(t.after.schedule.entries[t.from..t.to], r.stamp));
    assert starts == Events(StartLog(t.after.schedule.entries, t.from, t.to, r.stamp));
    TickEvents(t, r);
    HandleFour(faults, t.looped, starts, EndEvents(t.ended), t.completed);
  }

  lemma TickCompletionLast(t: TickResult, r: Reading)
    requires t.from <= t.to <= |t.after.schedule.entries|
    ensures CompletionLast(Events(TickLog(t, r)))
  {
  }

  /** What the ends leave of a shown fault shows the rest of the list if and only if nothing is undercut. */
  lemma LeftShowsIff(before: FaultEntry, after: FaultEntry, all: seq<ActiveChaos>, gone: seq<ActiveChaos>,
                     kept: seq<ActiveChaos>, id: string)
    requires Shows(before, all, id)
    requires NamesAll(all, id) <==> NamesAll(kept, id) || NamesAll(gone, id)
    requires forall x :: NamesTarget(all, id, x) <==> NamesTarget(kept, id, x) || NamesTarget(gone, id, x)
    requires after.globallyActive <==> before.globallyActive && !NamesAll(gone, id)
    requires forall x :: x in after.activeTargets <==>
               x in before.activeTargets && !NamesAll(gone, id) && !NamesTarget(gone, id, x)
    ensures Shows(after, kept, id) <==> !AnyUndercut(gone, kept, id)
  {
    UndercutMeans(gone, kept, id);
  }

  /**
    One tick on a fault that was shown, whoever shares it: it is shown again
    if and only if nothing that ended undercuts something that goes on.
   */
  lemma TickShowsIff(faults: Faults, s: Snapshot, r: Reading, id: string)
    requires WellFormed(s) && id in faults && Shows(faults[id], s.active, id)
    ensures var t := TickOf(s, r);
      var after := HandleAll(faults, Events(TickLog(t, r)));
      && after.Keys == faults.Keys
      && (Shows(after[id], t.after.active, id) <==> !AnyUndercut(t.ended, t.after.active, id))
  {
    var t := TickOf(s, r);
    var items := Stamped(s.schedule.entries[t.from..t.to], r.stamp);
    var all, started := s.active + items, HandleAll(faults, StartEvents(items));
    HandleTick(faults, t, r);
    StartsShow(faults, s.active, items, id);
    EndsLeave(started, t.ended, id);
    if Ticking(s) {
      FiltersCover(all, r.check, id);
    } else {
      assert all == s.active;
    }
    LeftShowsIff(started[id], HandleAll(started, EndEvents(t.ended))[id], all, t.ended, t.after.active, id);
  }

  /** A fault that no entry of the schedule switches keeps its registry entry. */
  lemma {:induction false} OthersKept(faults: Faults, events: seq<ChaosEvent>, id: string)
    requires id in faults
    requires forall i :: 0 <= i < |events| && (events[i].Started? || events[i].Ended?) ==> !Switches(events[i].entry, id)
    ensures var after := HandleAll(faults, events); after.Keys == faults.Keys && after[id] == faults[id]
  {
    if events != [] {
      var front, last := events[..|events| - 1], events[|events| - 1];
      OthersKept(faults, front, id);
      if last.Started? {
        StartedEffect(HandleAll(faults, front), last.entry, id);
      } else if last.Ended? {
        EndedEffect(HandleAll(faults, front), last.entry, id);
      }
    }
  }
}
