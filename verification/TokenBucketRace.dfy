/**
  * The rate limiter under concurrency: every thread's call is cut into the
  * steps another thread can observe, and a run is any interleaving of them.
  *
  * The time of the last refill is read and written only under the lock, so
  * writing it and releasing the lock belong to the step that stores the tokens.
  */
module TokenBucketRace {
  import opened TokenBucket

  /** Where a thread is in `try_acquire_n(n)`. */
  datatype Phase =
    | Idle
    | Waiting(n: u64)                                     // about to take the lock
    | Gaining(n: u64, now: real, gain: u64)               // lock held, tokens to add
    | Loaded(n: u64, now: real, gain: u64, current: u64)  // lock held, token count read
    | Asking(n: u64)                                      // refill done, about to read the token count
    | Swapping(n: u64, current: u64)                      // about to compare and exchange

  datatype Lock = Free | HeldBy(thread: nat)

  /** `granted` counts the tokens handed out, `raced` those handed out between a refill's load and its store. */
  datatype State = State(bucket: Bucket, lock: Lock, phases: map<nat, Phase>, granted: nat, raced: nat)

  /** Thread `thread` takes its next step; the other fields are what that step may need from outside. */
  datatype Step = Step(thread: nat, n: u64, now: real, spurious: bool)

  function PhaseOf(s: State, thread: nat): Phase {
    if thread in s.phases then s.phases[thread] else Idle
  }

  function To(s: State, thread: nat, p: Phase): State {
    s.(phases := s.phases[thread := p])
  }

  /** Some refill has loaded the token count and not yet stored it. */
  predicate Open(s: State) {
    s.lock.HeldBy? && PhaseOf(s, s.lock.thread).Loaded?
  }

  function Next(s: State, e: Step): State {
    var b, t := s.bucket, e.thread;
    match PhaseOf(s, t)
    case Idle => To(s, t, Waiting(e.n))
    case Waiting(n) =>
      if s.lock.HeldBy? then s
      else if Gain(b, e.now) == 0 then To(s, t, Asking(n))
      else To(s, t, Gaining(n, e.now, Gain(b, e.now))).(lock := HeldBy(t))
    case Gaining(n, now, gain) => To(s, t, Loaded(n, now, gain, b.tokens))
    case Loaded(n, now, gain, current) =>
      To(s, t, Asking(n)).(
        lock := Free,
        bucket := b.(tokens := Min(WrappingAdd(current, gain), b.capacity), last := now))
    case Asking(n) => To(s, t, if b.tokens < n then Idle else Swapping(n, b.tokens))
    case Swapping(n, current) =>
      // The last disjunct never decides: the read before it found n <= current.
      if e.spurious || b.tokens != current || b.tokens < n then To(s, t, Asking(n))
      else Hand(To(s, t, Idle), n, Open(s))
  }

  /** The exchange succeeds. */
  function Hand(s: State, n: u64, open: bool): State
    requires n <= s.bucket.tokens
  {
    s.(bucket := s.bucket.(tokens := s.bucket.tokens - n),
       granted := s.granted + n,
       raced := s.raced + if open then n else 0)
  }

  function Initial(b: Bucket): State {
    State(b, Free, map[], 0, 0)
  }

  function Run(s: State, steps: seq<Step>): State {
    if steps == [] then s else Next(Run(s, steps[..|steps| - 1]), steps[|steps| - 1])
  }

  // ---------------------------------------------------------------------------
  // The invariant of every interleaving
  // ---------------------------------------------------------------------------

  /** What the time up to the last refill allows, races included. */
  function Allowance(b: Bucket, s: State): nat {
    b.capacity + Earned(b.rate, s.bucket.last - b.last) + s.raced
  }

  predicate InRefill(p: Phase) {
    p.Gaining? || p.Loaded?
  }

  /** What holds of one thread. */
  predicate PhaseOk(b: Bucket, s: State, thread: nat) {
    var p := PhaseOf(s, thread);
    && (InRefill(p) <==> s.lock == HeldBy(thread))
    && (InRefill(p) ==> p.now > s.bucket.last && 0 < p.gain <= Earned(b.rate, p.now - s.bucket.last))
    && (p.Loaded? ==> p.current + s.granted <= Allowance(b, s))
    && (p.Swapping? ==> p.n <= p.current)
  }

  /** What holds of the shared fields. */
  predicate SharedOk(b: Bucket, s: State) {
    && s.bucket == b.(tokens := s.bucket.tokens, last := s.bucket.last)
    && s.bucket.tokens <= b.capacity
    && b.last <= s.bucket.last
    && s.granted + s.bucket.tokens <= Allowance(b, s)
  }

  ghost predicate Inv(b: Bucket, s: State) {
    SharedOk(b, s) && forall t: nat :: PhaseOk(b, s, t)
  }

  lemma NextKeepsShared(b: Bucket, s: State, e: Step)
    requires SharedOk(b, s) && PhaseOk(b, s, e.thread)
    ensures SharedOk(b, Next(s, e))
  {
    var p := PhaseOf(s, e.thread);
    if p.Loaded? {
      StoreBooks(b, s.bucket.last, p.now, p.gain);
    }
  }

  /** The tokens a store adds are paid for by the time it books. */
  lemma StoreBooks(b: Bucket, last: real, now: real, gain: u64)
    requires b.last <= last < now && gain <= Earned(b.rate, now - last)
    ensures Earned(b.rate, last - b.last) + gain <= Earned(b.rate, now - b.last)
  {
    EarnedAdds(b.rate, last - b.last, now - last);
    assert last - b.last + (now - last) == now - b.last;
  }

  /** The thread that moves keeps its own part. */
  lemma NextKeepsOwn(b: Bucket, s: State, e: Step)
    requires SharedOk(b, s) && PhaseOk(b, s, e.thread)
    ensures PhaseOk(b, Next(s, e), e.thread)
  {
    var p := PhaseOf(s, e.thread);
    if p.Waiting? && s.lock.Free? && Gain(s.bucket, e.now) > 0 {
      assert Gain(s.bucket, e.now) <= Earned(b.rate, e.now - s.bucket.last);
    }
  }

  /** The other threads keep theirs. */
  lemma NextKeepsOther(b: Bucket, s: State, e: Step, t: nat)
    requires SharedOk(b, s) && PhaseOk(b, s, e.thread) && PhaseOk(b, s, t) && t != e.thread
    ensures PhaseOk(b, Next(s, e), t)
  {
    assert PhaseOf(Next(s, e), t) == PhaseOf(s, t);
    var p := PhaseOf(s, e.thread);
    if p.Loaded? {
      assert s.lock == HeldBy(e.thread);
    }
  }

  lemma {:induction false} EveryInterleaving(b: Bucket, steps: seq<Step>)
    requires Full(b)
    ensures Inv(b, Run(Initial(b), steps))
  {
    if steps != [] {
      var s, e := Run(Initial(b), steps[..|steps| - 1]), steps[|steps| - 1];
      EveryInterleaving(b, steps[..|steps| - 1]);
      assert PhaseOk(b, s, e.thread);
      NextKeepsShared(b, s, e);
      forall t: nat ensures PhaseOk(b, Next(s, e), t) {
        assert PhaseOk(b, s, t);
        if t == e.thread {
          NextKeepsOwn(b, s, e);
        } else {
          NextKeepsOther(b, s, e, t);
        }
      }
    }
  }

  // ---------------------------------------------------------------------------
  // Results
  // ---------------------------------------------------------------------------

  /** Under any interleaving the token count stays within capacity, and one thread at most is refilling. */
  lemma {:induction false} TokensWithinCapacity(b: Bucket, steps: seq<Step>)
    requires Full(b)
    ensures var s := Run(Initial(b), steps);
            && s.bucket.tokens <= b.capacity
            && forall t: nat, u: nat :: InRefill(PhaseOf(s, t)) && InRefill(PhaseOf(s, u)) ==> t == u
  {
    EveryInterleaving(b, steps);
    var s := Run(Initial(b), steps);
    forall t: nat, u: nat | InRefill(PhaseOf(s, t)) && InRefill(PhaseOf(s, u)) ensures t == u {
      assert PhaseOk(b, s, t) && PhaseOk(b, s, u);
    }
  }

  function Latest(start: real, steps: seq<Step>): real {
    if steps == [] then start
    else
      var before, now := Latest(start, steps[..|steps| - 1]), steps[|steps| - 1].now;
      if now > before then now else before
  }

  predicate NotAfter(s: State, latest: real) {
    s.bucket.last <= latest && forall t :: t in s.phases && InRefill(s.phases[t]) ==> s.phases[t].now <= latest
  }

  lemma {:induction false} ClockBounds(b: Bucket, steps: seq<Step>)
    ensures NotAfter(Run(Initial(b), steps), Latest(b.last, steps))
  {
    if steps != [] {
      ClockBounds(b, steps[..|steps| - 1]);
    }
  }

  /**
    * Under any interleaving the tokens granted exceed what a sequential run may
    * grant by no more than the tokens taken inside a load-store window, so a
    * run without such a grant obeys the sequential bound.
    */
  lemma {:induction false} RacedGrantBound(b: Bucket, steps: seq<Step>)
    requires Full(b)
    ensures var s := Run(Initial(b), steps);
            s.granted <= b.capacity + Earned(b.rate, Latest(b.last, steps) - b.last) + s.raced
  {
    EveryInterleaving(b, steps);
    ClockBounds(b, steps);
    var last, latest := Run(Initial(b), steps).bucket.last, Latest(b.last, steps);
    EarnedAdds(b.rate, last - b.last, latest - last);
    assert last - b.last + (latest - last) == latest - b.last;
  }

  lemma RunSnoc(s: State, steps: seq<Step>, e: Step)
    ensures Run(s, steps + [e]) == Next(Run(s, steps), e)
  {
    assert (steps + [e])[..|steps|] == steps;
  }

  lemma RunTwice(s: State, steps: seq<Step>, e: Step)
    ensures Run(s, steps + [e, e]) == Next(Next(Run(s, steps), e), e)
  {
    RunSnoc(s, steps, e);
    RunSnoc(s, steps + [e], e);
    assert steps + [e] + [e] == steps + [e, e];
  }

  /** A call that nobody interrupts does what the sequential limiter does. */
  lemma Uninterrupted(s: State, e: Step) returns (steps: seq<Step>)
    requires s.lock.Free? && PhaseOf(s, e.thread).Idle? && !e.spurious
    ensures forall x :: x in steps ==> x == e
    ensures var r := Run(s, steps);
            && PhaseOf(r, e.thread).Idle? && r.lock.Free?
            && r.bucket == Acquired(s.bucket, e.n, e.now)
            && r.granted == s.granted + GrantOf(s.bucket, Acquire(e.n, e.now))
            && r.raced == s.raced
  {
    steps := [e, e];
    RunTwice(s, [], e);
    assert [] + [e, e] == steps && Run(s, []) == s;
    if Gain(s.bucket, e.now) > 0 {
      RunTwice(s, steps, e);
      steps := steps + [e, e];
    }
    var asking := Run(s, steps);
    Asked(asking, e);
    if e.n <= asking.bucket.tokens {
      RunTwice(s, steps, e);
      steps := steps + [e, e];
    } else {
      RunSnoc(s, steps, e);
      steps := steps + [e];
    }
  }

  /** The end of a call that nobody interrupts. */
  lemma Asked(s: State, e: Step)
    requires s.lock.Free? && PhaseOf(s, e.thread) == Asking(e.n) && !e.spurious
    ensures e.n > s.bucket.tokens ==>
              Next(s, e) == To(s, e.thread, Idle)
    ensures e.n <= s.bucket.tokens ==>
              var r := Next(Next(s, e), e);
              && PhaseOf(r, e.thread).Idle? && r.lock.Free?
              && r.bucket == s.bucket.(tokens := s.bucket.tokens - e.n)
              && r.granted == s.granted + e.n && r.raced == s.raced
  {
  }

  /** A thread in front of the lock does not move while another holds it. */
  lemma LockBlocks(s: State, e: Step)
    requires s.lock.HeldBy? && PhaseOf(s, e.thread).Waiting?
    ensures Next(s, e) == s
  {
  }

  /** Reads fewer tokens than asked for. */
  predicate TurnedAway(s: State, e: Step) {
    var p := PhaseOf(s, e.thread);
    p.Asking? && s.bucket.tokens < p.n
  }

  /** Exchanges a token count that nobody has changed since it was read. */
  predicate Served(s: State, e: Step) {
    var p := PhaseOf(s, e.thread);
    p.Swapping? && !e.spurious && s.bucket.tokens == p.current
  }

  /**
    In every reachable state a call ends at exactly two kinds of step: turned
    away, or served; a failed exchange is tried again. Only a served call takes
    tokens, as many as it asked for.
   */
  lemma CallEndsIff(b: Bucket, s: State, e: Step)
    requires Inv(b, s) && !PhaseOf(s, e.thread).Idle?
    ensures PhaseOf(Next(s, e), e.thread).Idle? <==> TurnedAway(s, e) || Served(s, e)
    ensures Next(s, e).granted == s.granted + if Served(s, e) then PhaseOf(s, e.thread).n else 0
    ensures Served(s, e) ==> Next(s, e).bucket.tokens == s.bucket.tokens - PhaseOf(s, e.thread).n
    ensures PhaseOf(s, e.thread).Swapping? && !Served(s, e) ==> PhaseOf(Next(s, e), e.thread) == Asking(PhaseOf(s, e.thread).n)
  {
    assert PhaseOk(b, s, e.thread);
  }

  // ---------------------------------------------------------------------------
  // Exactly which limiters keep the sequential bound under every interleaving
  // ---------------------------------------------------------------------------

  /** The sequential bound, up to the time of the last refill. */
  predicate Tight(b: Bucket, s: State) {
    s.granted + s.bucket.tokens <= b.capacity + Earned(b.rate, s.bucket.last - b.last)
  }

  /** A store that overwrites grants adds no more than one token, and one is paid for. */
  lemma NextKeepsTight(b: Bucket, s: State, e: Step)
    requires SharedOk(b, s) && PhaseOk(b, s, e.thread) && Tight(b, s)
    requires b.capacity <= 1 || b.rate <= 0.0
    ensures Tight(b, Next(s, e))
  {
    var p := PhaseOf(s, e.thread);
    if p.Loaded? {
      StoreBooks(b, s.bucket.last, p.now, p.gain);
    }
  }

  lemma {:induction false} TightThroughout(b: Bucket, steps: seq<Step>)
    requires Full(b) && (b.capacity <= 1 || b.rate <= 0.0)
    ensures Tight(b, Run(Initial(b), steps))
  {
    if steps != [] {
      var front, e := steps[..|steps| - 1], steps[|steps| - 1];
      TightThroughout(b, front);
      EveryInterleaving(b, front);
      assert PhaseOk(b, Run(Initial(b), front), e.thread);
      NextKeepsTight(b, Run(Initial(b), front), e);
    }
  }

  lemma {:induction false} RunConcat(s: State, a: seq<Step>, c: seq<Step>)
    ensures Run(s, a + c) == Run(Run(s, a), c)
  {
    if c == [] {
      assert a + c == a;
    } else {
      var n := |c| - 1;
      RunConcat(s, a, c[..n]);
      RunSnoc(s, a + c[..n], c[n]);
      assert a + c == a + c[..n] + [c[n]];
    }
  }

  lemma RunThree(s: State, e: Step)
    ensures Run(s, [e, e, e]) == Next(Next(Next(s, e), e), e)
  {
    RunSnoc(s, [], e);
    RunTwice(s, [e], e);
    assert [] + [e] == [e] && [e] + [e, e] == [e, e, e] && Run(s, []) == s;
  }

  /** What the run below looks at: the bucket, the grants, the lock and the two threads. */
  predicate At(s: State, bucket: Bucket, granted: nat, lock: Lock, zero: Phase, one: Phase) {
    s.bucket == bucket && s.granted == granted && s.lock == lock && PhaseOf(s, 0) == zero && PhaseOf(s, 1) == one
  }

  /** One step from idle, with nothing owed one step more, and the look at the count. */
  lemma Asks(s: State, e: Step)
    requires PhaseOf(s, e.thread) == Idle && s.lock == Free && Gain(s.bucket, e.now) == 0
    ensures var r := Next(Next(s, e), e);
      PhaseOf(r, e.thread) == Asking(e.n) && r == s.(phases := r.phases)
      && forall t: nat :: t != e.thread ==> PhaseOf(r, t) == PhaseOf(s, t)
  {
    assert PhaseOf(Next(s, e), e.thread) == Waiting(e.n);
  }

  /** With nothing owed, three steps bring an idle thread to its exchange. */
  lemma Reads(s: State, e: Step, granted: nat)
    requires e.thread <= 1 && Gain(s.bucket, e.now) == 0 && e.n <= s.bucket.tokens
    requires At(s, s.bucket, granted, Free, Idle, Idle)
    ensures var p := Swapping(e.n, s.bucket.tokens);
      At(Run(s, [e, e, e]), s.bucket, granted, Free, if e.thread == 0 then p else Idle, if e.thread == 0 then Idle else p)
  {
    RunThree(s, e);
    Asks(s, e);
    ReadsCount(Next(Next(s, e), e), e);
  }

  lemma ReadsCount(s: State, e: Step)
    requires PhaseOf(s, e.thread) == Asking(e.n) && e.n <= s.bucket.tokens
    ensures var r := Next(s, e);
      PhaseOf(r, e.thread) == Swapping(e.n, s.bucket.tokens) && r == s.(phases := r.phases)
      && forall t: nat :: t != e.thread ==> PhaseOf(r, t) == PhaseOf(s, t)
  {
  }

  /** Thread 0 takes the lock and loads the count. */
  lemma Loads(s: State, e: Step, granted: nat, one: Phase)
    requires e.thread == 0 && Gain(s.bucket, e.now) == 1
    requires At(s, s.bucket, granted, Free, Idle, one)
    ensures At(Run(s, [e, e, e]), s.bucket, granted, HeldBy(0), Loaded(e.n, e.now, 1, s.bucket.tokens), one)
  {
    RunThree(s, e);
    var s1 := Next(s, e);
    assert At(s1, s.bucket, granted, Free, Waiting(e.n), one);
    var s2 := Next(s1, e);
    assert At(s2, s.bucket, granted, HeldBy(0), Gaining(e.n, e.now, 1), one);
  }

  lemma Takes(s: State, e: Step, granted: nat, lock: Lock, zero: Phase, one: Phase)
    requires e.thread <= 1 && !e.spurious && e.n <= s.bucket.tokens
    requires At(s, s.bucket, granted, lock, zero, one)
    requires (if e.thread == 0 then zero else one) == Swapping(e.n, s.bucket.tokens)
    ensures At(Next(s, e), s.bucket.(tokens := s.bucket.tokens - e.n), granted + e.n, lock,
               if e.thread == 0 then Idle else zero, if e.thread == 0 then one else Idle)
  {
  }

  /** Thread 0 stores over what has been taken meanwhile, and takes two tokens. */
  lemma StoresAndTakes(s: State, e: Step, granted: nat)
    requires e.thread == 0 && e.n == 2 && !e.spurious && s.bucket.capacity >= 2
    requires At(s, s.bucket, granted, HeldBy(0), Loaded(2, e.now, 1, 1), Idle)
    ensures Next(Run(s, [e, e]), e).granted == granted + 2
  {
    RunTwice(s, [], e);
    assert [] + [e, e] == [e, e] && Run(s, []) == s;
    var full := s.bucket.(tokens := 2, last := e.now);
    var s1 := Next(s, e);
    assert At(s1, full, granted, Free, Asking(2), Idle);
    var s2 := Next(s1, e);
    assert At(s2, full, granted, Free, Swapping(2, 2), Idle);
    Takes(s2, e, granted, Free, Swapping(2, 2), Idle);
  }

  lemma OneTokenTime(rate: real)
    requires rate > 0.0
    ensures 1.0 / rate > 0.0 && Owed(rate, 1.0 / rate) == 1.0
  {
    var d := 1.0 / rate;
    assert d * rate == 1.0;
    assert d > 0.0;
  }

  lemma {:induction false} LatestOf(steps: seq<Step>, start: real, end: real)
    requires start <= end && forall x :: x in steps ==> x.now == start || x.now == end
    ensures Latest(start, steps) == if exists x :: x in steps && x.now == end then end else start
  {
    if steps != [] {
      var n := |steps| - 1;
      LatestOf(steps[..n], start, end);
      assert steps == steps[..n] + [steps[n]];
    }
  }

  /**
    A refill that overwrites a concurrent grant, on any limiter that can hold
    two tokens and refills: leave one token, let thread 0 load it when one more
    is due, let thread 1 take it, and let thread 0 store two and take them.
   */
  lemma RaceExceeds(b: Bucket) returns (steps: seq<Step>)
    requires Full(b) && b.capacity >= 2 && b.rate > 0.0
    ensures Run(Initial(b), steps).granted == b.capacity + 2
    ensures Earned(b.rate, Latest(b.last, steps) - b.last) == 1
  {
    var later := b.last + 1.0 / b.rate;
    var drain, f, e := Step(0, b.capacity - 1, b.last, false), Step(1, 1, b.last, false), Step(0, 2, later, false);
    OneTokenTime(b.rate);
    assert later - b.last == 1.0 / b.rate;
    steps := [drain, drain, drain] + [drain] + [f, f, f] + [e, e, e] + [f] + [e, e] + [e];
    RaceRun(b, drain, f, e);
    assert steps[|steps| - 1] == e;
    LatestOf(steps, b.last, later);
  }

  lemma RaceRun(b: Bucket, drain: Step, f: Step, e: Step)
    requires Full(b) && b.capacity >= 2 && Gain(b, b.last) == 0 && Gain(b, e.now) == 1
    requires drain == Step(0, b.capacity - 1, b.last, false) && f == Step(1, 1, b.last, false)
    requires e.thread == 0 && e.n == 2 && !e.spurious
    ensures Run(Initial(b), [drain, drain, drain] + [drain] + [f, f, f] + [e, e, e] + [f] + [e, e] + [e]).granted
         == b.capacity + 2
  {
    var s := Initial(b);
    var one := b.(tokens := 1);
    Reads(s, drain, 0);
    RunSnoc(s, [drain, drain, drain], drain);
    var drained := [drain, drain, drain] + [drain];
    Takes(Run(s, [drain, drain, drain]), drain, 0, Free, Swapping(b.capacity - 1, b.capacity), Idle);
    assert At(Run(s, drained), one, b.capacity - 1, Free, Idle, Idle);
    RunConcat(s, drained, [f, f, f]);
    Reads(Run(s, drained), f, b.capacity - 1);
    RaceEnds(b, s, drained + [f, f, f], f, e);
  }

  lemma RaceEnds(b: Bucket, s: State, before: seq<Step>, f: Step, e: Step)
    requires b.capacity >= 2 && Gain(b, e.now) == 1 && f == Step(1, 1, b.last, false)
    requires e.thread == 0 && e.n == 2 && !e.spurious
    requires At(Run(s, before), b.(tokens := 1), b.capacity - 1, Free, Idle, Swapping(1, 1))
    ensures Run(s, before + [e, e, e] + [f] + [e, e] + [e]).granted == b.capacity + 2
  {
    var one, loaded := b.(tokens := 1), before + [e, e, e];
    RunConcat(s, before, [e, e, e]);
    Loads(Run(s, before), e, b.capacity - 1, Swapping(1, 1));
    RunSnoc(s, loaded, f);
    Takes(Run(s, loaded), f, b.capacity - 1, HeldBy(0), Loaded(2, e.now, 1, 1), Swapping(1, 1));
    RunConcat(s, loaded + [f], [e, e]);
    RunSnoc(s, loaded + [f] + [e, e], e);
    StoresAndTakes(Run(s, loaded + [f]), e, b.capacity);
  }

  /** Two tokens, one more a second: four tokens in one second, where three are allowed. */
  lemma RaceBreaksBound() returns (steps: seq<Step>)
    ensures var b := Bucket(2, 2, 1.0, 0.0);
      Run(Initial(b), steps).granted == 4 > b.capacity + Earned(b.rate, Latest(b.last, steps) - b.last)
  {
    steps := RaceExceeds(Bucket(2, 2, 1.0, 0.0));
  }

  /** The tokens granted stay within capacity + floor(rate * elapsed) on this run. */
  predicate WithinBound(b: Bucket, steps: seq<Step>) {
    Run(Initial(b), steps).granted <= b.capacity + Earned(b.rate, Latest(b.last, steps) - b.last)
  }

  /**
    The sequential bound holds under every interleaving if and only if the
    limiter holds at most one token or does not refill.
   */
  lemma {:induction false} BoundUnderRacesIff(b: Bucket)
    requires Full(b)
    ensures (forall steps :: WithinBound(b, steps)) <==> b.capacity <= 1 || b.rate <= 0.0
  {
    if b.capacity <= 1 || b.rate <= 0.0 {
      forall steps
        ensures WithinBound(b, steps)
      {
        TightBound(b, steps);
      }
    } else {
      var steps := RaceExceeds(b);
      assert !WithinBound(b, steps);
    }
  }

  lemma {:induction false} TightBound(b: Bucket, steps: seq<Step>)
    requires Full(b) && (b.capacity <= 1 || b.rate <= 0.0)
    ensures WithinBound(b, steps)
  {
    TightThroughout(b, steps);
    EveryInterleaving(b, steps);
    ClockBounds(b, steps);
    var last, latest := Run(Initial(b), steps).bucket.last, Latest(b.last, steps);
    EarnedAdds(b.rate, last - b.last, latest - last);
    assert last - b.last + (latest - last) == latest - b.last;
  }
}
