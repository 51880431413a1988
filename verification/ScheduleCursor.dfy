/** The scheduler's cursor is a count of due entries, across pauses and skipped loops. */
module ScheduleCursor {
  import opened Scheduler
  import opened ScheduleRuns
  import opened Wrappers

  predicate SortedByStart(entries: seq<ChaosEntry>) {
    forall i, j :: 0 <= i < j < |entries| ==> entries[i].startSecs <= entries[j].startSecs
  }

  function CountDue(entries: seq<ChaosEntry>, position: real): nat {
    if entries == [] then 0
    else CountDue(entries[..|entries| - 1], position)
         + if entries[|entries| - 1].startSecs <= position then 1 else 0
  }

  predicate Looping(schedule: ChaosSchedule) {
    schedule.loopSchedule && schedule.totalDurationSecs.Some?
  }

  predicate PositiveTotal(schedule: ChaosSchedule) {
    Looping(schedule) ==> schedule.totalDurationSecs.value > 0.0
  }

  /** Whole loops passed, without the clamp to 32 bits. */
  function WholeLoops(schedule: ChaosSchedule, elapsed: real): int
    requires PositiveTotal(schedule)
  {
    if Looping(schedule) then (elapsed / schedule.totalDurationSecs.value).Floor else 0
  }

  /** Elapsed time, or elapsed time modulo the total when looping. */
  function Position(schedule: ChaosSchedule, elapsed: real): real
    requires PositiveTotal(schedule)
  {
    if Looping(schedule) then Remainder(elapsed, schedule.totalDurationSecs.value) else elapsed
  }

  /** The loop number still fits the 32-bit loop counter. */
  predicate InRange(schedule: ChaosSchedule, elapsed: real)
    requires PositiveTotal(schedule)
  {
    WholeLoops(schedule, elapsed) <= U32_MAX
  }

  /** What the 32-bit counter can hold of a loop number. */
  function Clamp(loops: int): int {
    if loops < 0xFFFF_FFFF then loops else 0xFFFF_FFFF
  }

  // ---------------------------------------------------------------------------
  // Arithmetic of loops
  // ---------------------------------------------------------------------------

  /** The position in a loop is what the whole loops leave of the elapsed time. */
  lemma RemainderIs(elapsed: real, period: real)
    requires elapsed >= 0.0 && period > 0.0
    ensures 0.0 <= Remainder(elapsed, period) < period
    ensures elapsed == (elapsed / period).Floor as real * period + Remainder(elapsed, period)
  {
    var q := elapsed / period;
    assert q * period == elapsed;
    var f := q - q.Floor as real;
    Distribute(q, q.Floor as real, period);
    assert Remainder(elapsed, period) == f * period;
    PartOfPeriod(f, period);
  }

  lemma PartOfPeriod(f: real, period: real)
    requires period > 0.0 && 0.0 <= f < 1.0
    ensures 0.0 <= f * period < period
  {
    FactorSign(f, period);
    FactorPositive(1.0 - f, period);
    Distribute(1.0, f, period);
  }

  lemma Distribute(a: real, b: real, c: real)
    ensures (a - b) * c == a * c - b * c
  {
  }

  lemma FactorPositive(d: real, total: real)
    requires total > 0.0 && d > 0.0
    ensures d * total > 0.0
  {
  }

  lemma FactorSign(d: real, total: real)
    requires total > 0.0
    ensures d * total >= 0.0 <==> d >= 0.0
  {
  }

  lemma QuotientMonotone(a: real, b: real, total: real)
    requires a <= b && total > 0.0
    ensures a / total <= b / total && (a / total).Floor <= (b / total).Floor
  {
    var x, y := a / total, b / total;
    assert (y - x) * total == b - a;
    FactorSign(y - x, total);
  }

  lemma QuotientRange(elapsed: real, total: real)
    requires elapsed >= 0.0 && total > 0.0
    ensures elapsed / total >= 0.0
    ensures elapsed < total <==> (elapsed / total).Floor == 0
  {
    var q := elapsed / total;
    assert q * total == elapsed;
    FactorSign(q, total);
    assert (q - 1.0) * total == elapsed - total;
    FactorSign(q - 1.0, total);
  }

  lemma LoopsGrow(before: real, elapsed: real, total: real)
    requires 0.0 <= before <= elapsed && total > 0.0
    ensures 0 <= (before / total).Floor <= (elapsed / total).Floor
    ensures elapsed < total ==> (elapsed / total).Floor == 0 && Remainder(elapsed, total) == elapsed
    ensures (before / total).Floor == (elapsed / total).Floor ==> Remainder(before, total) <= Remainder(elapsed, total)
  {
    QuotientMonotone(before, elapsed, total);
    QuotientRange(before, total);
    QuotientRange(elapsed, total);
  }

  lemma LoopsAtIsFloor(elapsed: real, total: real)
    requires 0.0 <= elapsed && total > 0.0
    ensures LoopsAt(elapsed, total) == Clamp((elapsed / total).Floor)
  {
    QuotientRange(elapsed, total);
  }

  /** A loop is reported exactly when the clamped loop number has grown, and the counter follows it. */
  lemma LoopIsExact(s: Snapshot, before: real, elapsed: real)
    requires WellFormed(s) && PositiveTotal(s.schedule) && 0.0 <= before <= elapsed
    requires s.loops == Clamp(WholeLoops(s.schedule, before))
    ensures var p := LoopPhase(s, elapsed);
      && p.loops == Clamp(WholeLoops(s.schedule, elapsed))
      && (p.looped <==> Clamp(WholeLoops(s.schedule, elapsed)) > Clamp(WholeLoops(s.schedule, before)))
  {
    if Looping(s.schedule) {
      var total := s.schedule.totalDurationSecs.value;
      LoopsGrow(before, elapsed, total);
      LoopsAtIsFloor(elapsed, total);
    }
  }

  /** What settling the loops yields when the counter was right before. */
  lemma PhaseIsExact(s: Snapshot, before: real, elapsed: real)
    requires WellFormed(s) && PositiveTotal(s.schedule)
    requires 0.0 <= before <= elapsed && InRange(s.schedule, elapsed)
    requires s.loops == Clamp(WholeLoops(s.schedule, before))
    ensures var p := LoopPhase(s, elapsed);
      && p.loops == WholeLoops(s.schedule, elapsed)
      && p.position == Some(Position(s.schedule, elapsed))
      && (p.next == 0 || (p.next == s.next && Position(s.schedule, before) <= Position(s.schedule, elapsed)))
  {
    if Looping(s.schedule) {
      var total := s.schedule.totalDurationSecs.value;
      LoopsGrow(before, elapsed, total);
      LoopsAtIsFloor(elapsed, total);
    }
  }

  // ---------------------------------------------------------------------------
  // Counting
  // ---------------------------------------------------------------------------

  lemma {:induction false} CountSplit(entries: seq<ChaosEntry>, k: nat, position: real)
    requires k <= |entries|
    requires forall i :: 0 <= i < k ==> entries[i].startSecs <= position
    requires forall i :: k <= i < |entries| ==> entries[i].startSecs > position
    ensures CountDue(entries, position) == k
  {
    if entries != [] {
      var front := entries[..|entries| - 1];
      CountSplit(front, if k == |entries| then k - 1 else k, position);
    }
  }

  // ---------------------------------------------------------------------------
  // Runs
  // ---------------------------------------------------------------------------

  predicate CursorInvariant(run: Run)
    requires PositiveTotal(run.now.schedule) && WellFormed(run.now)
  {
    var s := run.now;
    s.state != Stopped ==>
      && s.startTime.Some? && run.elapsed >= 0.0 && s.startTime.value + run.elapsed <= run.clock
      && s.loops == Clamp(WholeLoops(s.schedule, run.elapsed))
      && LoopCount(run.log) <= Clamp(WholeLoops(s.schedule, run.elapsed))
      && (InRange(s.schedule, run.elapsed) ==>
            forall i :: 0 <= i < s.next ==> s.schedule.entries[i].startSecs <= Position(s.schedule, run.elapsed))
  }

  /** In range now means in range at every earlier time. */
  lemma InRangeEarlier(schedule: ChaosSchedule, before: real, elapsed: real)
    requires PositiveTotal(schedule) && 0.0 <= before <= elapsed && InRange(schedule, elapsed)
    ensures InRange(schedule, before)
  {
    if Looping(schedule) {
      QuotientMonotone(before, elapsed, schedule.totalDurationSecs.value);
    }
  }

  lemma CursorTick(run: Run, r: Reading)
    requires WellFormed(run.now) && PositiveTotal(run.now.schedule) && Ticking(run.now)
    requires CursorInvariant(run) && Allowed(run, DoTick(r))
    ensures CursorInvariant(Step(run, DoTick(r)))
    ensures SortedByStart(run.now.schedule.entries) && InRange(run.now.schedule, Elapsed(run.now, r.now)) ==>
      TickOf(run.now, r).after.next
      == CountDue(run.now.schedule.entries, Position(run.now.schedule, Elapsed(run.now, r.now)))
  {
    var s, t := run.now, TickOf(run.now, r);
    var elapsed := Elapsed(s, r.now);
    ReadingsInOrder(r);
    LoopIsExact(s, run.elapsed, elapsed);
    TickCounts(run.log, t, r);
    if InRange(s.schedule, elapsed) {
      InRangeEarlier(s.schedule, run.elapsed, elapsed);
      PhaseIsExact(s, run.elapsed, elapsed);
      var position := Position(s.schedule, elapsed);
      assert forall i :: 0 <= i < t.to ==> s.schedule.entries[i].startSecs <= position;
      if SortedByStart(s.schedule.entries) {
        CountSplit(s.schedule.entries, t.to, position);
      }
    }
  }

  lemma IdleTick(run: Run, r: Reading)
    requires WellFormed(run.now) && PositiveTotal(run.now.schedule) && !Ticking(run.now)
    requires CursorInvariant(run) && Allowed(run, DoTick(r))
    ensures CursorInvariant(Step(run, DoTick(r)))
  {
    ReadingsInOrder(r);
    TickCounts(run.log, TickOf(run.now, r), r);
  }

  lemma StartInvariant(run: Run, at: real)
    requires WellFormed(run.now) && PositiveTotal(run.now.schedule)
    ensures CursorInvariant(Step(run, DoStart(at)))
  {
    if Looping(run.now.schedule) {
      QuotientRange(0.0, run.now.schedule.totalDurationSecs.value);
    }
  }

  lemma {:induction false} CursorOnEveryRun(schedule: ChaosSchedule, clock: real, cmds: seq<Command>)
    requires ValidSchedule(schedule) && PositiveTotal(schedule) && Timed(schedule, clock, cmds)
    ensures CursorInvariant(Exec(schedule, clock, cmds))
  {
    if cmds != [] {
      var front, c := cmds[..|cmds| - 1], cmds[|cmds| - 1];
      TimedPrefix(schedule, clock, cmds);
      CursorOnEveryRun(schedule, clock, front);
      var run := Exec(schedule, clock, front);
      if c.DoTick? {
        if Ticking(run.now) {
          CursorTick(run, c.reading);
        } else {
          IdleTick(run, c.reading);
        }
      } else if c.DoStart? {
        StartInvariant(run, c.at);
      }
    }
  }

  /**
    On every run, a running tick reports a loop if and only if the number of
    whole loops, as far as the counter can hold it, has grown since the last one.
   */
  lemma LoopReportedIff(schedule: ChaosSchedule, clock: real, cmds: seq<Command>, r: Reading)
    requires ValidSchedule(schedule) && PositiveTotal(schedule) && Timed(schedule, clock, cmds)
    requires var run := Exec(schedule, clock, cmds); Ticking(run.now) && Allowed(run, DoTick(r))
    ensures var run := Exec(schedule, clock, cmds);
      var before, after := WholeLoops(schedule, run.elapsed), WholeLoops(schedule, Elapsed(run.now, r.now));
      LoopCount(Step(run, DoTick(r)).log) == LoopCount(run.log) + if Clamp(after) > Clamp(before) then 1 else 0
  {
    var run := Exec(schedule, clock, cmds);
    CursorOnEveryRun(schedule, clock, cmds);
    LoopIsExact(run.now, run.elapsed, Elapsed(run.now, r.now));
    TickCounts(run.log, TickOf(run.now, r), r);
  }

  /** At no point of a run more loops have been reported than have passed. */
  lemma LoopsNotInvented(schedule: ChaosSchedule, clock: real, cmds: seq<Command>)
    requires ValidSchedule(schedule) && PositiveTotal(schedule) && Timed(schedule, clock, cmds)
    ensures var run := Exec(schedule, clock, cmds);
      run.now.state != Stopped ==> LoopCount(run.log) <= WholeLoops(schedule, run.elapsed)
  {
    CursorOnEveryRun(schedule, clock, cmds);
  }

  /**
    Totals that are not positive.  A negative one never loops, and the position
    is what its magnitude leaves of the elapsed time.  With zero the position is
    not a number: past the start nothing more is started, and one loop is reported.
   */
  lemma OddTotals(s: Snapshot, r: Reading)
    requires WellFormed(s) && Ticking(s) && Looping(s.schedule) && s.schedule.totalDurationSecs.value <= 0.0
    ensures var t, total, elapsed := TickOf(s, r), s.schedule.totalDurationSecs.value, Elapsed(s, r.now);
      && (total < 0.0 ==>
            && !t.looped && t.from == s.next
            && t.to == FirstNotDue(s.schedule.entries, s.next, Some(Remainder(elapsed, -total))))
      && (total == 0.0 ==>
            && t.to == t.from
            && (t.looped <==> elapsed > 0.0 && s.loops < 0xFFFF_FFFF)
            && (t.looped ==> t.after.loops == 0xFFFF_FFFF))
  {
    var total, elapsed := s.schedule.totalDurationSecs.value, Elapsed(s, r.now);
    if total < 0.0 {
      var q := elapsed / total;
      assert q * total == elapsed;
      NegativeQuotient(q, total, elapsed);
    }
  }

  lemma NegativeQuotient(q: real, total: real, elapsed: real)
    requires total < 0.0 && elapsed >= 0.0 && q * total == elapsed
    ensures q <= 0.0
  {
  }

  /**
    After every running tick of every run the cursor is the number of entries
    whose start is not after the elapsed time, taken modulo the total when the
    schedule loops, as long as the loop number fits the 32-bit counter.
   */
  lemma CursorIsCount(schedule: ChaosSchedule, clock: real, cmds: seq<Command>, r: Reading)
    requires ValidSchedule(schedule) && PositiveTotal(schedule) && SortedByStart(schedule.entries)
    requires Timed(schedule, clock, cmds) && Allowed(Exec(schedule, clock, cmds), DoTick(r))
    requires var s := Exec(schedule, clock, cmds).now; Ticking(s) && InRange(schedule, Elapsed(s, r.now))
    ensures var s := Exec(schedule, clock, cmds).now;
      TickOf(s, r).after.next == CountDue(schedule.entries, Position(schedule, Elapsed(s, r.now)))
  {
    CursorOnEveryRun(schedule, clock, cmds);
    CursorTick(Exec(schedule, clock, cmds), r);
  }

  /** Past the counter's range the loop number stands still, and so does the cursor once the counter has got there. */
  lemma PhasePastRange(s: Snapshot, elapsed: real)
    requires WellFormed(s) && PositiveTotal(s.schedule) && elapsed >= 0.0 && !InRange(s.schedule, elapsed)
    ensures var p := LoopPhase(s, elapsed);
      && p.position == Some(Position(s.schedule, elapsed))
      && p.next == if s.loops < U32_MAX then 0 else s.next
  {
    QuotientRange(elapsed, s.schedule.totalDurationSecs.value);
  }

  lemma {:induction false} CountAtMost(entries: seq<ChaosEntry>, k: nat, position: real)
    requires k <= |entries|
    requires forall i :: k <= i < |entries| ==> entries[i].startSecs > position
    ensures CountDue(entries, position) <= k
  {
    if entries != [] {
      CountAtMost(entries[..|entries| - 1], if k == |entries| then k - 1 else k, position);
    }
  }

  /** On sorted entries the cursor moves to the count, unless it is already past it. */
  lemma CursorMovesToCount(entries: seq<ChaosEntry>, from: nat, position: real)
    requires SortedByStart(entries) && from <= |entries|
    ensures FirstNotDue(entries, from, Some(position)) == CountDue(entries, position)
        <==> from <= CountDue(entries, position)
  {
    var k := FirstNotDue(entries, from, Some(position));
    CountAtMost(entries, k, position);
    if from < k {
      CountSplit(entries, k, position);
    }
  }

  /**
    The whole truth about a running tick on sorted entries: the cursor is the
    count exactly when the loop number fits the counter, or the counter has not
    reached its limit yet, or the cursor is not past the count already.
   */
  lemma CursorIsCountIff(schedule: ChaosSchedule, clock: real, cmds: seq<Command>, r: Reading)
    requires ValidSchedule(schedule) && PositiveTotal(schedule) && SortedByStart(schedule.entries)
    requires Timed(schedule, clock, cmds) && Allowed(Exec(schedule, clock, cmds), DoTick(r))
    requires Ticking(Exec(schedule, clock, cmds).now)
    ensures var s := Exec(schedule, clock, cmds).now;
      var elapsed := Elapsed(s, r.now);
      var count := CountDue(schedule.entries, Position(schedule, elapsed));
      TickOf(s, r).after.next == count <==> InRange(schedule, elapsed) || s.loops < U32_MAX || s.next <= count
  {
    var s := Exec(schedule, clock, cmds).now;
    var elapsed := Elapsed(s, r.now);
    if InRange(schedule, elapsed) {
      CursorIsCount(schedule, clock, cmds, r);
    } else {
      PhasePastRange(s, elapsed);
      CursorMovesToCount(schedule.entries, LoopPhase(s, elapsed).next, Position(schedule, elapsed));
    }
  }

  /** One entry half a second into a one-second loop. */
  function HalfSecondLoop(): (schedule: ChaosSchedule)
    ensures ValidSchedule(schedule) && PositiveTotal(schedule) && SortedByStart(schedule.entries)
  {
    ChaosSchedule([ChaosEntry(0.5, 0.0, [], "")], true, Some(1.0))
  }

  /**
    Past 2^32 loops the counter stands still, the cursor is no longer moved
    back, and it is not the count any more.
   */
  lemma SaturatedCounterFails()
    ensures var schedule := HalfSecondLoop();
      exists cmds: seq<Command>, r: Reading ::
        && Timed(schedule, 0.0, cmds) && Allowed(Exec(schedule, 0.0, cmds), DoTick(r))
        && var s := Exec(schedule, 0.0, cmds).now;
        && Ticking(s) && WholeLoops(schedule, Elapsed(s, r.now)) == U32_MAX + 1
        && TickOf(s, r).after.next != CountDue(schedule.entries, Position(schedule, Elapsed(s, r.now)))
  {
    var schedule, t := HalfSecondLoop(), 4294967295.75;
    var first, r := Instant(t), Instant(t + 0.5);
    var started := Step(Begin(schedule, 0.0), DoStart(0.0));
    TwoCommands(schedule, 0.0, DoStart(0.0), DoTick(first));
    FirstTick(started.now, first);
    var run := Step(started, DoTick(first));
    SecondTick(run.now, r);
    assert Exec(schedule, 0.0, [DoStart(0.0), DoTick(first)]) == run;
    assert Allowed(run, DoTick(r));
  }

  lemma TwoCommands(schedule: ChaosSchedule, clock: real, c: Command, d: Command)
    requires ValidSchedule(schedule)
    ensures Exec(schedule, clock, [c, d]) == Step(Step(Begin(schedule, clock), c), d)
    ensures Timed(schedule, clock, [c, d]) <==>
      Allowed(Begin(schedule, clock), c) && Allowed(Step(Begin(schedule, clock), c), d)
  {
    var cmds := [c, d];
    assert cmds[..0] == [] && cmds[..1] == [c] && cmds[..1][..0] == [];
    assert Exec(schedule, clock, cmds[..0]) == Begin(schedule, clock);
    assert Exec(schedule, clock, cmds[..1]) == Step(Begin(schedule, clock), c);
  }

  lemma FirstTick(s: Snapshot, r: Reading)
    requires s == Snapshot(HalfSecondLoop(), Running, [], Some(0.0), 0, 0) && r.now == 4294967295.75
    ensures var a := TickOf(s, r).after; a.next == 1 && a.loops == U32_MAX && a.state == Running && a.startTime == Some(0.0)
  {
    assert (4294967295.75 / 1.0).Floor == 4294967295;
    assert LoopPhase(s, 4294967295.75) == Phase(U32_MAX, 0, true, Some(0.75));
  }

  lemma SecondTick(s: Snapshot, r: Reading)
    requires WellFormed(s) && s.schedule == HalfSecondLoop() && Ticking(s)
    requires s.next == 1 && s.loops == U32_MAX && s.startTime == Some(0.0) && r.now == 4294967296.25
    ensures WholeLoops(s.schedule, Elapsed(s, r.now)) == U32_MAX + 1
    ensures TickOf(s, r).after.next == 1
    ensures CountDue(s.schedule.entries, Position(s.schedule, Elapsed(s, r.now))) == 0
  {
    assert (4294967296.25 / 1.0).Floor == 4294967296;
    assert Position(s.schedule, Elapsed(s, r.now)) == 0.25;
    CountSplit(s.schedule.entries, 0, 0.25);
  }
}
