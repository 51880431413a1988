/**
  Whole runs of the scheduler: any sequence of start, stop, pause, resume and
  tick under a clock that does not go back.
 */
module ScheduleRuns {
  import opened Scheduler
  import opened Wrappers

  datatype Command = DoStart(at: real) | DoStop | DoPause | DoResume | DoTick(reading: Reading)

  /**
    The scheduler, what it logged since it was last started or stopped, the
    latest clock reading, and the elapsed time of the last running tick.
   */
  datatype Run = Run(now: Snapshot, log: seq<Logged>, clock: real, elapsed: real)

  predicate ValidSchedule(schedule: ChaosSchedule) {
    forall i :: 0 <= i < |schedule.entries| ==> schedule.entries[i].durationSecs >= 0.0
  }

  function Begin(schedule: ChaosSchedule, clock: real): (run: Run)
    requires ValidSchedule(schedule)
    ensures WellFormed(run.now)
  {
    Run(Snapshot(schedule, Stopped, [], None, 0, 0), [], clock, 0.0)
  }

  /** The clock never goes back. */
  ghost predicate Allowed(run: Run, c: Command) {
    match c
    case DoStart(at) => run.clock <= at
    case DoTick(r) => run.clock <= r.now && r.Ordered()
    case _ => true
  }

  function Step(run: Run, c: Command): (next: Run)
    requires WellFormed(run.now)
    ensures WellFormed(next.now) && next.now.schedule == run.now.schedule
  {
    var s := run.now;
    match c
    case DoStart(at) =>
      Run(s.(state := Running, active := [], startTime := Some(at), next := 0, loops := 0), [], at, 0.0)
    case DoStop => run.(now := s.(state := Stopped, active := [], startTime := None), log := [])
    case DoPause => run.(now := s.(state := if s.state == Running then Paused else s.state))
    case DoResume => run.(now := s.(state := if s.state == Paused then Running else s.state))
    case DoTick(r) =>
      var t := TickOf(s, r);
      TickKeepsWellFormed(s, r);
      Run(t.after, run.log + TickLog(t, r), r.end, if Ticking(s) then Elapsed(s, r.now) else run.elapsed)
  }

  /** A tick on a scheduler that is stopped, paused or complete does nothing and reports nothing. */
  lemma IdleTickDoesNothing(s: Snapshot, r: Reading)
    requires WellFormed(s) && (s.state == Stopped || s.state == Paused || s.state == Completed)
    ensures TickOf(s, r).after == s && TickLog(TickOf(s, r), r) == []
  {
  }

  /** A command on the scheduler itself is a step of the run. */
  method Obey(scheduler: ChaosScheduler, c: Command, ghost run: Run) returns (events: seq<ChaosEvent>)
    requires WellFormed(run.now) && scheduler.View() == run.now
    modifies scheduler
    ensures scheduler.View() == Step(run, c).now
    ensures c.DoTick? ==> Events(Step(run, c).log) == Events(run.log) + events
  {
    events := [];
    match c {
      case DoStart(at) => scheduler.Start(at);
      case DoStop => scheduler.Stop();
      case DoPause => scheduler.Pause();
      case DoResume => scheduler.Resume();
      case DoTick(r) =>
        events := scheduler.Tick(r);
    }
  }

  function Exec(schedule: ChaosSchedule, clock: real, cmds: seq<Command>): (run: Run)
    requires ValidSchedule(schedule)
    ensures WellFormed(run.now) && run.now.schedule == schedule
  {
    if cmds == [] then Begin(schedule, clock)
    else Step(Exec(schedule, clock, cmds[..|cmds| - 1]), cmds[|cmds| - 1])
  }

  ghost predicate Timed(schedule: ChaosSchedule, clock: real, cmds: seq<Command>)
    requires ValidSchedule(schedule)
  {
    forall i :: 0 <= i < |cmds| ==> Allowed(Exec(schedule, clock, cmds[..i]), cmds[i])
  }

  lemma TimedPrefix(schedule: ChaosSchedule, clock: real, cmds: seq<Command>)
    requires ValidSchedule(schedule) && cmds != [] && Timed(schedule, clock, cmds)
    ensures Timed(schedule, clock, cmds[..|cmds| - 1])
    ensures Allowed(Exec(schedule, clock, cmds[..|cmds| - 1]), cmds[|cmds| - 1])
  {
    var front := cmds[..|cmds| - 1];
    forall i | 0 <= i < |front|
      ensures Allowed(Exec(schedule, clock, front[..i]), front[i])
    {
      assert front[..i] == cmds[..i];
    }
  }

  // ---------------------------------------------------------------------------
  // Reading a log
  // ---------------------------------------------------------------------------

  function Filter(log: seq<Logged>, keep: Logged -> bool): seq<Logged> {
    if log == [] then []
    else
      var last := log[|log| - 1];
      var front := Filter(log[..|log| - 1], keep);
      if keep(last) then front + [last] else front
  }

  function IsStart(): Logged -> bool { (l: Logged) => l.event.Started? }

  function IsEnd(): Logged -> bool { (l: Logged) => l.event.Ended? }

  function IsLoop(): Logged -> bool { (l: Logged) => l.event.ScheduleLooped? }

  function IsCompletion(): Logged -> bool { (l: Logged) => l.event.ScheduleCompleted? }

  function IsStartOf(index: nat): Logged -> bool { (l: Logged) => l.event.Started? && l.index == index }

  /** The activations that the starts and ends in a log speak of. */
  function Activations(log: seq<Logged>): seq<ActiveChaos> {
    if log == [] then []
    else
      var last := log[|log| - 1];
      var front := Activations(log[..|log| - 1]);
      match last.event
      case Started(entry) => front + [ActiveChaos(entry, last.startedAt)]
      case Ended(entry) => front + [ActiveChaos(entry, last.startedAt)]
      case _ => front
  }

  lemma {:induction false} ActivationsConcat(a: seq<Logged>, b: seq<Logged>)
    ensures Activations(a + b) == Activations(a) + Activations(b)
  {
    if b == [] {
      assert a + b == a;
    } else {
      ActivationsConcat(a, b[..|b| - 1]);
      assert (a + b)[..|a + b| - 1] == a + b[..|b| - 1];
    }
  }

  lemma {:induction false} ActivationsOfStartLog(entries: seq<ChaosEntry>, from: nat, to: nat, at: nat -> real)
    requires from <= to <= |entries|
    ensures Activations(StartLog(entries, from, to, at)) == Stamped(entries[from..to], at)
  {
    if from < to {
      ActivationsOfStartLog(entries, from, to - 1, at);
      var log := StartLog(entries, from, to, at);
      assert log[..|log| - 1] == StartLog(entries, from, to - 1, at);
      assert Stamped(entries[from..to], at) == Stamped(entries[from..to - 1], at) + [ActiveChaos(entries[to - 1], at(to - 1 - from))];
    }
  }

  lemma {:induction false} ActivationsOfEndLog(ended: seq<ActiveChaos>, at: real)
    ensures Activations(EndLog(ended, at)) == ended
  {
    if ended != [] {
      var front := ended[..|ended| - 1];
      ActivationsOfEndLog(front, at);
      var log := EndLog(ended, at);
      assert log[..|log| - 1] == EndLog(front, at);
    }
  }

  lemma {:induction false} FilterSound(log: seq<Logged>, keep: Logged -> bool)
    ensures forall i :: 0 <= i < |Filter(log, keep)| ==> keep(Filter(log, keep)[i]) && Filter(log, keep)[i] in log
  {
    if log != [] {
      FilterSound(log[..|log| - 1], keep);
    }
  }

  lemma {:induction false} FilterConcat(a: seq<Logged>, b: seq<Logged>, keep: Logged -> bool)
    ensures Filter(a + b, keep) == Filter(a, keep) + Filter(b, keep)
  {
    if b == [] {
      assert a + b == a;
    } else {
      FilterConcat(a, b[..|b| - 1], keep);
      assert (a + b)[..|a + b| - 1] == a + b[..|b| - 1];
    }
  }

  lemma {:induction false} FilterAll(log: seq<Logged>, keep: Logged -> bool)
    requires forall i :: 0 <= i < |log| ==> keep(log[i])
    ensures Filter(log, keep) == log
  {
    if log != [] {
      FilterAll(log[..|log| - 1], keep);
    }
  }

  lemma {:induction false} FilterNone(log: seq<Logged>, keep: Logged -> bool)
    requires forall i :: 0 <= i < |log| ==> !keep(log[i])
    ensures Filter(log, keep) == []
  {
    if log != [] {
      FilterNone(log[..|log| - 1], keep);
    }
  }

  function Starts(log: seq<Logged>): seq<Logged> { Filter(log, IsStart()) }

  function Ends(log: seq<Logged>): seq<Logged> { Filter(log, IsEnd()) }

  function LoopCount(log: seq<Logged>): nat { |Filter(log, IsLoop())| }

  function CompletionCount(log: seq<Logged>): nat { |Filter(log, IsCompletion())| }

  /** How often the entry at a position was started. */
  function StartCount(log: seq<Logged>, index: nat): nat { |Filter(log, IsStartOf(index))| }

  lemma {:induction false} StartLogCount(entries: seq<ChaosEntry>, from: nat, to: nat, at: nat -> real, index: nat)
    requires from <= to <= |entries|
    ensures StartCount(StartLog(entries, from, to, at), index) == if from <= index < to then 1 else 0
  {
    if from < to {
      StartLogCount(entries, from, to - 1, at, index);
      var log := StartLog(entries, from, to, at);
      assert log[..|log| - 1] == StartLog(entries, from, to - 1, at);
    }
  }

  lemma FilterFive(log: seq<Logged>, a: seq<Logged>, b: seq<Logged>, c: seq<Logged>, d: seq<Logged>, keep: Logged -> bool)
    ensures Filter(log + (a + b + c + d), keep)
         == Filter(log, keep) + (Filter(a, keep) + Filter(b, keep) + Filter(c, keep) + Filter(d, keep))
  {
    FilterConcat(log, a + b + c + d, keep);
    FilterConcat(a + b + c, d, keep);
    FilterConcat(a + b, c, keep);
    FilterConcat(a, b, keep);
  }

  lemma SingleFilter(l: Logged, keep: Logged -> bool)
    ensures Filter([l], keep) == if keep(l) then [l] else []
    ensures Filter([], keep) == []
  {
    assert [l][..0] == [];
  }

  /** The four kinds of log item a tick adds, seen through one filter. */
  lemma TickFilter(log: seq<Logged>, t: TickResult, r: Reading, keep: Logged -> bool)
    requires t.from <= t.to <= |t.after.schedule.entries|
    ensures Filter(log + TickLog(t, r), keep)
         == Filter(log, keep)
          + (Filter(LoopLog(t, r), keep) + Filter(StartLog(t.after.schedule.entries, t.from, t.to, r.stamp), keep)
             + Filter(EndLog(t.ended, r.end), keep) + Filter(CompletionLog(t, r), keep))
    ensures |Filter(LoopLog(t, r), keep)| ==
      if t.looped && keep(Logged(ScheduleLooped, 0, r.now, r.now)) then 1 else 0
    ensures |Filter(CompletionLog(t, r), keep)| ==
      if t.completed && keep(Logged(ScheduleCompleted, 0, r.end, r.end)) then 1 else 0
  {
    FilterFive(log, LoopLog(t, r), StartLog(t.after.schedule.entries, t.from, t.to, r.stamp),
               EndLog(t.ended, r.end), CompletionLog(t, r), keep);
    SingleFilter(Logged(ScheduleLooped, 0, r.now, r.now), keep);
    SingleFilter(Logged(ScheduleCompleted, 0, r.end, r.end), keep);
  }

  lemma Alone(log: seq<Logged>)
    ensures [] + log + [] + [] == log && [] + [] + log + [] == log
  {
  }

  lemma TickStarts(log: seq<Logged>, t: TickResult, r: Reading)
    requires t.from <= t.to <= |t.after.schedule.entries|
    ensures Starts(log + TickLog(t, r)) == Starts(log) + StartLog(t.after.schedule.entries, t.from, t.to, r.stamp)
  {
    var starts, ends := StartLog(t.after.schedule.entries, t.from, t.to, r.stamp), EndLog(t.ended, r.end);
    TickFilter(log, t, r, IsStart());
    FilterAll(starts, IsStart());
    FilterNone(ends, IsStart());
    assert Filter(LoopLog(t, r), IsStart()) == [] && Filter(CompletionLog(t, r), IsStart()) == [];
    Alone(starts);
  }

  lemma TickEnds(log: seq<Logged>, t: TickResult, r: Reading)
    requires t.from <= t.to <= |t.after.schedule.entries|
    ensures Ends(log + TickLog(t, r)) == Ends(log) + EndLog(t.ended, r.end)
  {
    var starts, ends := StartLog(t.after.schedule.entries, t.from, t.to, r.stamp), EndLog(t.ended, r.end);
    TickFilter(log, t, r, IsEnd());
    FilterNone(starts, IsEnd());
    FilterAll(ends, IsEnd());
    assert Filter(LoopLog(t, r), IsEnd()) == [] && Filter(CompletionLog(t, r), IsEnd()) == [];
    Alone(ends);
  }

  lemma TickCounts(log: seq<Logged>, t: TickResult, r: Reading)
    requires t.from <= t.to <= |t.after.schedule.entries|
    ensures LoopCount(log + TickLog(t, r)) == LoopCount(log) + if t.looped then 1 else 0
    ensures CompletionCount(log + TickLog(t, r)) == CompletionCount(log) + if t.completed then 1 else 0
  {
    var starts, ends := StartLog(t.after.schedule.entries, t.from, t.to, r.stamp), EndLog(t.ended, r.end);
    TickFilter(log, t, r, IsLoop());
    FilterNone(starts, IsLoop());
    FilterNone(ends, IsLoop());
    TickFilter(log, t, r, IsCompletion());
    FilterNone(starts, IsCompletion());
    FilterNone(ends, IsCompletion());
  }

  lemma TickStartCount(log: seq<Logged>, t: TickResult, r: Reading, index: nat)
    requires t.from <= t.to <= |t.after.schedule.entries|
    ensures StartCount(log + TickLog(t, r), index) == StartCount(log, index) + if t.from <= index < t.to then 1 else 0
  {
    TickFilter(log, t, r, IsStartOf(index));
    StartLogCount(t.after.schedule.entries, t.from, t.to, r.stamp, index);
    FilterNone(EndLog(t.ended, r.end), IsStartOf(index));
  }

  // ---------------------------------------------------------------------------
  // Conservation: what was started has ended or is active
  // ---------------------------------------------------------------------------

  ghost predicate Balanced(starts: seq<ActiveChaos>, ends: seq<ActiveChaos>, active: seq<ActiveChaos>) {
    multiset(starts) == multiset(ends) + multiset(active)
  }

  ghost predicate Conserved(log: seq<Logged>, s: Snapshot) {
    Balanced(Activations(Starts(log)), Activations(Ends(log)), s.active)
  }

  ghost predicate Parts(kept: seq<ActiveChaos>, gone: seq<ActiveChaos>, all: seq<ActiveChaos>) {
    multiset(kept) + multiset(gone) == multiset(all)
  }

  lemma PartsSnoc(kept: seq<ActiveChaos>, gone: seq<ActiveChaos>, all: seq<ActiveChaos>, last: ActiveChaos)
    requires Parts(kept, gone, all)
    ensures Parts(kept + [last], gone, all + [last]) && Parts(kept, gone + [last], all + [last])
  {
  }

  lemma {:induction false} FilterPartition(active: seq<ActiveChaos>, check: nat -> real)
    ensures Parts(Surviving(active, check), Expired(active, check), active)
  {
    if active != [] {
      var n := |active| - 1;
      FilterPartition(active[..n], check);
      PartsSnoc(Surviving(active[..n], check), Expired(active[..n], check), active[..n], active[n]);
      assert active == active[..n] + [active[n]];
    }
  }

  lemma TickStartedItems(log: seq<Logged>, t: TickResult, r: Reading)
    requires t.from <= t.to <= |t.after.schedule.entries|
    ensures Activations(Starts(log + TickLog(t, r)))
         == Activations(Starts(log)) + Stamped(t.after.schedule.entries[t.from..t.to], r.stamp)
  {
    TickStarts(log, t, r);
    ActivationsConcat(Starts(log), StartLog(t.after.schedule.entries, t.from, t.to, r.stamp));
    ActivationsOfStartLog(t.after.schedule.entries, t.from, t.to, r.stamp);
  }

  lemma TickEndedItems(log: seq<Logged>, t: TickResult, r: Reading)
    requires t.from <= t.to <= |t.after.schedule.entries|
    ensures Activations(Ends(log + TickLog(t, r))) == Activations(Ends(log)) + t.ended
  {
    TickEnds(log, t, r);
    ActivationsConcat(Ends(log), EndLog(t.ended, r.end));
    ActivationsOfEndLog(t.ended, r.end);
  }

  lemma Rebalance(starts: seq<ActiveChaos>, ends: seq<ActiveChaos>, before: seq<ActiveChaos>,
                  added: seq<ActiveChaos>, ended: seq<ActiveChaos>, after: seq<ActiveChaos>)
    requires Balanced(starts, ends, before)
    requires multiset(before) + multiset(added) == multiset(after) + multiset(ended)
    ensures Balanced(starts + added, ends + ended, after)
  {
    assert multiset(starts + added) == multiset(ends) + (multiset(before) + multiset(added));
  }

  lemma TickConserves(log: seq<Logged>, s: Snapshot, r: Reading)
    requires WellFormed(s) && Conserved(log, s)
    ensures var t := TickOf(s, r); Conserved(log + TickLog(t, r), t.after)
  {
    var t := TickOf(s, r);
    TickStartedItems(log, t, r);
    TickEndedItems(log, t, r);
    TickBalance(s, r);
    Rebalance(Activations(Starts(log)), Activations(Ends(log)), s.active,
              Stamped(s.schedule.entries[t.from..t.to], r.stamp), t.ended, t.after.active);
  }

  /** One tick: active before and newly started make up active after and ended. */
  lemma TickBalance(s: Snapshot, r: Reading)
    requires WellFormed(s)
    ensures var t := TickOf(s, r);
      multiset(s.active) + multiset(Stamped(s.schedule.entries[t.from..t.to], r.stamp))
      == multiset(t.after.active) + multiset(t.ended)
  {
    var t := TickOf(s, r);
    if Ticking(s) {
      FilterPartition(s.active + Stamped(s.schedule.entries[t.from..t.to], r.stamp), r.check);
    }
  }

  // ---------------------------------------------------------------------------
  // Durations are kept
  // ---------------------------------------------------------------------------

  /** Nothing ends before its duration is over. */
  predicate Punctual(log: seq<Logged>) {
    forall i :: 0 <= i < |log| && log[i].event.Ended? ==>
      log[i].startedAt + log[i].event.entry.durationSecs <= log[i].at
  }

  predicate StampedBy(s: Snapshot, clock: real) {
    forall i :: 0 <= i < |s.active| ==> s.active[i].startedAt <= clock
  }

  lemma ReadingsInOrder(r: Reading)
    requires r.Ordered()
    ensures r.now <= r.end
    ensures forall i: nat :: r.now <= r.stamp(i) <= r.end
    ensures forall j: nat :: r.now <= r.check(j) <= r.end
  {
    assert r.now <= r.stamp(0) <= r.check(0) <= r.end;
    forall i: nat ensures r.now <= r.stamp(i) <= r.end {
      assert r.stamp(i) <= r.check(0);
    }
    forall j: nat ensures r.now <= r.check(j) <= r.end {
      assert r.stamp(0) <= r.check(j);
    }
  }

  /** Whatever a tick looks at was started before. */
  lemma StartedBefore(active: seq<ActiveChaos>, entries: seq<ChaosEntry>, r: Reading)
    requires r.Ordered() && forall i :: 0 <= i < |active| ==> active[i].startedAt <= r.now
    ensures var all := active + Stamped(entries, r.stamp);
      && (forall i, j: nat :: 0 <= i < |all| ==> all[i].startedAt <= r.check(j))
      && (forall i :: 0 <= i < |all| ==> all[i].startedAt <= r.end)
  {
    ReadingsInOrder(r);
    var all := active + Stamped(entries, r.stamp);
    forall i, j: nat | 0 <= i < |all| ensures all[i].startedAt <= r.check(j) {
      if i >= |active| {
        assert all[i].startedAt == r.stamp(i - |active|);
      }
    }
  }

  /** An item of the list was found expired, or not, when it was looked at. */
  ghost predicate Judged(active: seq<ActiveChaos>, check: nat -> real, a: ActiveChaos, expired: bool) {
    exists i :: 0 <= i < |active| && active[i] == a && expired == a.IsExpired(check(i))
  }

  lemma JudgedSnoc(active: seq<ActiveChaos>, last: ActiveChaos, check: nat -> real, a: ActiveChaos, expired: bool)
    ensures Judged(active + [last], check, a, expired) <==>
      Judged(active, check, a, expired) || (a == last && expired == last.IsExpired(check(|active|)))
  {
    var all, n := active + [last], |active|;
    assert all[n] == last && forall i :: 0 <= i < n ==> all[i] == active[i];
  }

  /** The filters keep what was not expired, and report what was. */
  lemma {:induction false} FiltersJudge(active: seq<ActiveChaos>, check: nat -> real)
    ensures forall a :: a in Expired(active, check) <==> Judged(active, check, a, true)
    ensures forall a :: a in Surviving(active, check) <==> Judged(active, check, a, false)
  {
    if active != [] {
      var n := |active| - 1;
      FiltersJudge(active[..n], check);
      assert active == active[..n] + [active[n]];
      forall a, expired
        ensures Judged(active, check, a, expired) <==>
          Judged(active[..n], check, a, expired) || (a == active[n] && expired == active[n].IsExpired(check(n)))
      {
        JudgedSnoc(active[..n], active[n], check, a, expired);
      }
    }
  }

  /** Looked at when the clock showed `check(i)`, an activation that was there is over, or is not. */
  ghost predicate LookedAt(active: seq<ActiveChaos>, check: nat -> real, a: ActiveChaos, over: bool) {
    exists i :: 0 <= i < |active| && active[i] == a && over == (a.startedAt + a.entry.durationSecs <= check(i))
  }

  lemma FiltersLook(active: seq<ActiveChaos>, check: nat -> real)
    requires forall i, j: nat :: 0 <= i < |active| ==> active[i].startedAt <= check(j)
    ensures forall a :: a in Expired(active, check) ==> LookedAt(active, check, a, true)
    ensures forall a :: a in Surviving(active, check) ==> LookedAt(active, check, a, false)
  {
    FiltersJudge(active, check);
    forall a, expired | Judged(active, check, a, expired)
      ensures LookedAt(active, check, a, expired)
    {
      var i :| 0 <= i < |active| && active[i] == a && expired == a.IsExpired(check(i));
      assert active[i].startedAt <= check(i);
    }
  }

  /**
    A running tick ends only activations whose duration was over when it looked
    at them, and keeps only those whose duration was not.
   */
  lemma TickEndsExpired(s: Snapshot, r: Reading, clock: real)
    requires WellFormed(s) && Ticking(s)
    requires StampedBy(s, clock) && clock <= r.now && r.Ordered()
    ensures var t := TickOf(s, r);
      var all := s.active + Stamped(s.schedule.entries[t.from..t.to], r.stamp);
      && StampedBy(t.after, r.end)
      && (forall a :: a in t.ended ==> LookedAt(all, r.check, a, true))
      && (forall a :: a in t.after.active ==> LookedAt(all, r.check, a, false))
  {
    var t := TickOf(s, r);
    var all := s.active + Stamped(s.schedule.entries[t.from..t.to], r.stamp);
    StartedBefore(s.active, s.schedule.entries[t.from..t.to], r);
    FiltersLook(all, r.check);
    SurvivorsKeep(all, r.check);
    assert forall i :: 0 <= i < |t.after.active| ==> t.after.active[i] in all;
  }

  /** What ended in a tick was over when the tick handed out its events. */
  lemma EndedIsOver(s: Snapshot, r: Reading, clock: real)
    requires WellFormed(s) && StampedBy(s, clock) && clock <= r.now && r.Ordered()
    ensures var t := TickOf(s, r); StampedBy(t.after, r.end) && Punctual(EndLog(t.ended, r.end))
  {
    var t := TickOf(s, r);
    ReadingsInOrder(r);
    if Ticking(s) {
      TickEndsExpired(s, r, clock);
      assert forall i :: 0 <= i < |t.ended| ==> t.ended[i] in t.ended;
    }
  }

  lemma TickIsPunctual(log: seq<Logged>, s: Snapshot, r: Reading, clock: real)
    requires WellFormed(s) && Punctual(log)
    requires StampedBy(s, clock) && clock <= r.now && r.Ordered()
    ensures var t := TickOf(s, r); Punctual(log + TickLog(t, r)) && StampedBy(t.after, r.end)
  {
    EndedIsOver(s, r, clock);
    PunctualParts(log, TickOf(s, r), r);
  }

  lemma PunctualParts(log: seq<Logged>, t: TickResult, r: Reading)
    requires t.from <= t.to <= |t.after.schedule.entries|
    requires Punctual(log) && Punctual(EndLog(t.ended, r.end))
    ensures Punctual(log + TickLog(t, r))
  {
    assert Punctual(TickLog(t, r));
  }

  // ---------------------------------------------------------------------------
  // How often an entry starts
  // ---------------------------------------------------------------------------

  ghost predicate StartsBounded(log: seq<Logged>, s: Snapshot) {
    && (forall k: nat :: StartCount(log, k) <= LoopCount(log) + if k < s.next then 1 else 0)
    && (!s.schedule.loopSchedule ==> LoopCount(log) == 0)
    && (!s.schedule.loopSchedule && s.state != Stopped ==>
          forall k: nat :: StartCount(log, k) == if k < s.next then 1 else 0)
  }

  lemma TickBoundsStarts(log: seq<Logged>, s: Snapshot, r: Reading)
    requires WellFormed(s) && StartsBounded(log, s)
    ensures var t := TickOf(s, r); StartsBounded(log + TickLog(t, r), t.after)
  {
    var t := TickOf(s, r);
    TickCounts(log, t, r);
    assert t.looped ==> t.from == 0 && s.schedule.loopSchedule;
    assert !t.looped ==> t.from == s.next;
    forall k: nat
      ensures StartCount(log + TickLog(t, r), k) == StartCount(log, k) + if t.from <= k < t.to then 1 else 0
    {
      TickStartCount(log, t, r, k);
    }
  }

  // ---------------------------------------------------------------------------
  // Completion
  // ---------------------------------------------------------------------------

  predicate CompletionKept(log: seq<Logged>, s: Snapshot) {
    && CompletionCount(log) == (if s.state == Completed then 1 else 0)
    && (s.state == Completed ==> !s.schedule.loopSchedule && s.next == |s.schedule.entries| && s.active == [])
  }

  lemma TickKeepsCompletion(log: seq<Logged>, s: Snapshot, r: Reading)
    requires WellFormed(s) && CompletionKept(log, s)
    ensures var t := TickOf(s, r); CompletionKept(log + TickLog(t, r), t.after)
  {
    TickCounts(log, TickOf(s, r), r);
  }

  // ---------------------------------------------------------------------------
  // Every run
  // ---------------------------------------------------------------------------

  ghost predicate RunInvariant(run: Run) {
    && Conserved(run.log, run.now)
    && Punctual(run.log)
    && StampedBy(run.now, run.clock)
    && StartsBounded(run.log, run.now)
    && CompletionKept(run.log, run.now)
  }

  lemma TickKeepsInvariant(run: Run, r: Reading)
    requires WellFormed(run.now) && RunInvariant(run) && Allowed(run, DoTick(r))
    ensures RunInvariant(Step(run, DoTick(r)))
  {
    TickConserves(run.log, run.now, r);
    TickIsPunctual(run.log, run.now, r, run.clock);
    TickBoundsStarts(run.log, run.now, r);
    TickKeepsCompletion(run.log, run.now, r);
  }

  lemma EmptyLog()
    ensures Starts([]) == [] && Ends([]) == [] && Activations([]) == []
    ensures LoopCount([]) == 0 && CompletionCount([]) == 0
    ensures forall k: nat :: StartCount([], k) == 0
  {
  }

  lemma StepKeepsInvariant(run: Run, c: Command)
    requires WellFormed(run.now) && RunInvariant(run) && Allowed(run, c)
    ensures RunInvariant(Step(run, c))
  {
    if c.DoTick? {
      TickKeepsInvariant(run, c.reading);
    } else {
      EmptyLog();
    }
  }

  lemma {:induction false} EveryRun(schedule: ChaosSchedule, clock: real, cmds: seq<Command>)
    requires ValidSchedule(schedule) && Timed(schedule, clock, cmds)
    ensures RunInvariant(Exec(schedule, clock, cmds))
  {
    if cmds == [] {
      EmptyLog();
    } else {
      var front := cmds[..|cmds| - 1];
      TimedPrefix(schedule, clock, cmds);
      EveryRun(schedule, clock, front);
      StepKeepsInvariant(Exec(schedule, clock, front), cmds[|cmds| - 1]);
    }
  }

  /**
    A schedule that does not loop reports completion at most once, and only
    when every entry was started exactly once and everything started has ended.
   */
  lemma CompletionMeansDone(schedule: ChaosSchedule, clock: real, cmds: seq<Command>)
    requires ValidSchedule(schedule) && Timed(schedule, clock, cmds)
    ensures var log := Exec(schedule, clock, cmds).log;
      && CompletionCount(log) <= 1
      && (CompletionCount(log) == 1 ==>
            && !schedule.loopSchedule
            && (forall k: nat :: k < |schedule.entries| ==> StartCount(log, k) == 1)
            && multiset(Activations(Starts(log))) == multiset(Activations(Ends(log))))
  {
    EveryRun(schedule, clock, cmds);
  }

  /** No entry starts more often than once per reported loop and once besides. */
  lemma StartsPerLoop(schedule: ChaosSchedule, clock: real, cmds: seq<Command>, k: nat)
    requires ValidSchedule(schedule) && Timed(schedule, clock, cmds)
    ensures var log := Exec(schedule, clock, cmds).log; StartCount(log, k) <= 1 + LoopCount(log)
  {
    EveryRun(schedule, clock, cmds);
  }
}
