/**
  * The token bucket rate limiter of mabi-core: the object itself, what every
  * sequential run of it may grant, and what polling it costs.
  *
  * The clock is an argument: `now` is the reading a call takes.  Seconds and
  * rates are reals; token counts are 64-bit, with the wrap-around of the
  * addition and the saturation of the float conversion written out.
  */
module TokenBucket {
  import opened Bits

  type u64 = n: nat | n < U64_RANGE

  datatype Bucket = Bucket(capacity: u64, tokens: u64, rate: real, last: real)

  function Min(a: nat, b: nat): nat {
    if a <= b then a else b
  }

  /** The tokens, fractions included, that `d` seconds are worth. */
  function Owed(rate: real, d: real): real {
    if d > 0.0 && rate > 0.0 then d * rate else 0.0
  }

  /** A float converted to `u64`: truncated, negative to zero, the top of the range as ceiling. */
  function ToU64(x: real): u64 {
    if x <= 0.0 then 0 else Min(x.Floor, U64_RANGE - 1)
  }

  /** The 64-bit addition, which wraps around. */
  function WrappingAdd(a: u64, b: u64): (sum: u64)
    ensures sum == (a + b) % U64_RANGE
  {
    if a + b < U64_RANGE then a + b else a + b - U64_RANGE
  }

  lemma OwedNonnegative(rate: real, d: real)
    ensures Owed(rate, d) >= 0.0
  {
    if d > 0.0 && rate > 0.0 {
      assert d * rate > 0.0;
    }
  }

  /** The code multiplies whatever the sign of the rate; a negative product converts to no token. */
  lemma ProductIsOwed(rate: real, d: real)
    requires d > 0.0
    ensures ToU64(d * rate) == ToU64(Owed(rate, d))
  {
    if rate <= 0.0 {
      assert d * rate <= 0.0;
    }
  }

  /** The whole tokens a refill at `now` adds. */
  function Gain(b: Bucket, now: real): u64 {
    ToU64(Owed(b.rate, now - b.last))
  }

  /** A refill: without a whole token to add, nothing changes, the time of the last refill included. */
  function Refilled(b: Bucket, now: real): Bucket {
    var gain := Gain(b, now);
    if gain == 0 then b
    else b.(tokens := Min(WrappingAdd(b.tokens, gain), b.capacity), last := now)
  }

  predicate Grants(b: Bucket, n: u64, now: real) {
    n <= Refilled(b, now).tokens
  }

  function Acquired(b: Bucket, n: u64, now: real): Bucket {
    var r := Refilled(b, now);
    if n <= r.tokens then r.(tokens := r.tokens - n) else r
  }

  class RateLimiter {
    const capacity: u64
    const refillRate: real
    var tokens: u64
    var lastRefill: real

    function State(): Bucket
      reads this
    {
      Bucket(capacity, tokens, refillRate, lastRefill)
    }

    constructor (capacity: u64, refillRate: real, now: real)
      ensures State() == Bucket(capacity, capacity, refillRate, now)
    {
      this.capacity := capacity;
      this.refillRate := refillRate;
      tokens := capacity;
      lastRefill := now;
    }

    method WholeTokens(elapsed: real) returns (n: u64)
      requires elapsed > 0.0
      ensures n == ToU64(Owed(refillRate, elapsed))
    {
      n := ToU64(elapsed * refillRate);
      ProductIsOwed(refillRate, elapsed);
    }

    method Refill(now: real)
      modifies this
      ensures State() == Refilled(old(State()), now)
    {
      var elapsed := if now > lastRefill then now - lastRefill else 0.0;
      if elapsed > 0.0 {
        var newTokens := WholeTokens(elapsed);
        if newTokens > 0 {
          var current := tokens;
          tokens := Min(WrappingAdd(current, newTokens), capacity);
          lastRefill := now;
        }
      }
    }

    /** `spurious` is how often the weak compare-exchange fails for no reason. */
    method TryAcquire(now: real, spurious: nat) returns (granted: bool)
      modifies this
      ensures granted == Grants(old(State()), 1, now)
      ensures State() == Acquired(old(State()), 1, now)
    {
      Refill(now);
      var failures := spurious;
      while true
        invariant State() == Refilled(old(State()), now)
        decreases failures
      {
        var current := tokens;
        if current == 0 {
          return false;
        }
        if failures == 0 {
          tokens := current - 1;
          return true;
        }
        failures := failures - 1;
      }
    }

    method TryAcquireN(n: u64, now: real, spurious: nat) returns (granted: bool)
      modifies this
      ensures granted == Grants(old(State()), n, now)
      ensures State() == Acquired(old(State()), n, now)
    {
      Refill(now);
      var failures := spurious;
      while true
        invariant State() == Refilled(old(State()), now)
        decreases failures
      {
        var current := tokens;
        if current < n {
          return false;
        }
        if failures == 0 {
          tokens := current - n;
          return true;
        }
        failures := failures - 1;
      }
    }

    method Available(now: real) returns (available: u64)
      modifies this
      ensures State() == Refilled(old(State()), now)
      ensures available == State().tokens
    {
      Refill(now);
      available := tokens;
    }
  }

  // ---------------------------------------------------------------------------
  // Arithmetic of the refill
  // ---------------------------------------------------------------------------

  lemma OwedAdds(rate: real, a: real, b: real)
    requires a >= 0.0 && b >= 0.0
    ensures Owed(rate, a + b) == Owed(rate, a) + Owed(rate, b)
  {
    assert (a + b) * rate == a * rate + b * rate;
  }

  /** Whole tokens of two stretches together are at most those of the joined stretch, and miss at most one. */
  lemma FloorAdds(x: real, y: real)
    requires x >= 0.0 && y >= 0.0
    ensures (x + y).Floor == x.Floor + y.Floor + if Carries(x, y) then 1 else 0
  {
  }

  /** The fractions of the two stretches make a whole token. */
  predicate Carries(x: real, y: real) {
    (x - x.Floor as real) + (y - y.Floor as real) >= 1.0
  }

  /** The whole tokens that `d` seconds are worth. */
  function Earned(rate: real, d: real): nat {
    OwedNonnegative(rate, d);
    Owed(rate, d).Floor
  }

  /** The whole part of seconds times rate. */
  lemma EarnedIs(rate: real, d: real)
    requires rate >= 0.0 && d >= 0.0
    ensures Earned(rate, d) as real <= d * rate < Earned(rate, d) as real + 1.0
  {
    ProductNonnegative(rate, d);
  }

  lemma ProductNonnegative(rate: real, d: real)
    requires rate >= 0.0 && d >= 0.0
    ensures Owed(rate, d) == d * rate >= 0.0
  {
    if rate == 0.0 || d == 0.0 {
      assert d * rate == 0.0;
    }
  }

  lemma EarnedAdds(rate: real, a: real, b: real)
    requires a >= 0.0 && b >= 0.0
    ensures Earned(rate, a) + Earned(rate, b) <= Earned(rate, a + b)
  {
    OwedAdds(rate, a, b);
    OwedNonnegative(rate, a);
    OwedNonnegative(rate, b);
    FloorAdds(Owed(rate, a), Owed(rate, b));
  }

  // ---------------------------------------------------------------------------
  // What a sequential run may grant
  // ---------------------------------------------------------------------------

  /** A call on the limiter: a request for `n` tokens, or a look at what is available. */
  datatype Call = Acquire(n: u64, now: real) | Poll(now: real)

  function Apply(b: Bucket, c: Call): Bucket {
    if c.Acquire? then Acquired(b, c.n, c.now) else Refilled(b, c.now)
  }

  function GrantOf(b: Bucket, c: Call): nat {
    if c.Acquire? && Grants(b, c.n, c.now) then c.n else 0
  }

  function After(b: Bucket, calls: seq<Call>): Bucket {
    if calls == [] then b else Apply(After(b, calls[..|calls| - 1]), calls[|calls| - 1])
  }

  function Granted(b: Bucket, calls: seq<Call>): nat {
    if calls == [] then 0
    else
      var front := calls[..|calls| - 1];
      Granted(b, front) + GrantOf(After(b, front), calls[|calls| - 1])
  }

  function Latest(start: real, calls: seq<Call>): real {
    if calls == [] then start
    else
      var before, now := Latest(start, calls[..|calls| - 1]), calls[|calls| - 1].now;
      if now > before then now else before
  }

  predicate Full(b: Bucket) {
    b.tokens == b.capacity
  }

  /** One refill books no more tokens than the time it books them for is worth. */
  lemma RefillBooks(b: Bucket, now: real, start: real)
    requires b.last >= start
    ensures var r := Refilled(b, now);
            && r.last >= b.last && (r.last == b.last || r.last == now)
            && r.tokens + Earned(b.rate, b.last - start) <= b.tokens + Earned(b.rate, r.last - start)
  {
    if Gain(b, now) > 0 {
      assert now > b.last;
      EarnedAdds(b.rate, b.last - start, now - b.last);
      assert b.last - start + (now - b.last) == now - start;
    }
  }

  /**
    * Tokens handed out, plus tokens still in the bucket, never exceed the
    * capacity plus what the time up to the last refill is worth, at every point
    * of every run.
    */
  lemma {:induction false} LedgerHolds(b: Bucket, calls: seq<Call>)
    requires Full(b)
    ensures var r := After(b, calls);
            && r.capacity == b.capacity && r.rate == b.rate
            && r.tokens <= b.capacity
            && b.last <= r.last <= Latest(b.last, calls)
            && Granted(b, calls) + r.tokens <= b.capacity + Earned(b.rate, r.last - b.last)
  {
    if calls != [] {
      var front, c := calls[..|calls| - 1], calls[|calls| - 1];
      LedgerHolds(b, front);
      CallBooks(After(b, front), c, b.last);
    }
  }

  /** One call moves tokens from the bucket to the caller and adds no more than the time is worth. */
  lemma CallBooks(b: Bucket, c: Call, start: real)
    requires b.last >= start && b.tokens <= b.capacity
    ensures var r := Apply(b, c);
            && r == b.(tokens := r.tokens, last := r.last) && r.tokens <= b.capacity
            && b.last <= r.last && (r.last == b.last || r.last == c.now)
            && GrantOf(b, c) + r.tokens + Earned(b.rate, b.last - start)
               <= b.tokens + Earned(b.rate, r.last - start)
  {
    RefillBooks(b, c.now, start);
  }

  /** Every sequential run: the tokens granted are at most capacity + floor(rate * elapsed). */
  lemma {:induction false} GrantBound(b: Bucket, calls: seq<Call>)
    requires Full(b)
    ensures Granted(b, calls) <= b.capacity + Earned(b.rate, Latest(b.last, calls) - b.last)
  {
    LedgerHolds(b, calls);
    var last, latest := After(b, calls).last, Latest(b.last, calls);
    EarnedAdds(b.rate, last - b.last, latest - last);
    assert last - b.last + (latest - last) == latest - b.last;
  }

  /** The bound is met: whenever a bucket can hold what an interval is worth, a run of two requests takes it all. */
  lemma BoundIsMet(b: Bucket, end: real)
    requires Full(b) && end >= b.last
    requires Earned(b.rate, end - b.last) <= b.capacity
    ensures var calls := [Acquire(b.capacity, b.last), Acquire(Earned(b.rate, end - b.last), end)];
            && Latest(b.last, calls) == end
            && Granted(b, calls) == b.capacity + Earned(b.rate, end - b.last)
  {
    var drain, rest := Acquire(b.capacity, b.last), Acquire(Earned(b.rate, end - b.last), end);
    Drained(b);
    assert [drain, rest][..1] == [drain];
    RefillFits(b.(tokens := 0), end);
  }

  lemma Drained(b: Bucket)
    requires Full(b)
    ensures var calls := [Acquire(b.capacity, b.last)];
            && After(b, calls) == b.(tokens := 0)
            && Granted(b, calls) == b.capacity && Latest(b.last, calls) == b.last
  {
    assert [Acquire(b.capacity, b.last)][..0] == [];
    assert After(b, []) == b && Granted(b, []) == 0;
  }

  // ---------------------------------------------------------------------------
  // What polling costs
  // ---------------------------------------------------------------------------

  /** Polls that each find less than a whole token owed, however many, leave the bucket untouched. */
  lemma {:induction false} EmptyPollsAreFree(b: Bucket, polls: seq<Call>)
    requires forall c :: c in polls ==> c.Poll? && Owed(b.rate, c.now - b.last) < 1.0
    ensures After(b, polls) == b
  {
    if polls != [] {
      EmptyPollsAreFree(b, polls[..|polls| - 1]);
      assert polls[|polls| - 1] in polls;
      OwedNonnegative(b.rate, polls[|polls| - 1].now - b.last);
    }
  }

  /** No overflow of the counter up to `now`. */
  predicate Fits(b: Bucket, now: real) {
    b.tokens as real + Owed(b.rate, now - b.last) < U64_RANGE as real
  }

  lemma RefillFits(b: Bucket, now: real)
    requires b.tokens <= b.capacity && Fits(b, now)
    ensures Refilled(b, now).tokens == Min(b.tokens + Earned(b.rate, now - b.last), b.capacity)
    ensures Gain(b, now) == Earned(b.rate, now - b.last)
  {
  }

  /** A refill takes tokens away exactly when the 64-bit addition wraps. */
  lemma RefillKeepsTokensIff(b: Bucket, now: real)
    requires b.tokens <= b.capacity
    ensures Refilled(b, now).tokens >= b.tokens <==> b.tokens + Gain(b, now) < U64_RANGE
  {
  }

  /**
    * A poll in the middle of an interval delays the next token exactly when it
    * collects something, the fraction it discards would have made one more
    * token by the end of the interval, and the bucket has room for that token.
    */
  lemma PollDelaysIff(b: Bucket, poll: real, now: real)
    requires b.tokens <= b.capacity && b.last <= poll <= now && Fits(b, now)
    ensures
      var x, y := Owed(b.rate, poll - b.last), Owed(b.rate, now - poll);
      Refilled(Refilled(b, poll), now).tokens < Refilled(b, now).tokens
      <==> x >= 1.0 && Carries(x, y) && b.tokens + x.Floor + y.Floor < b.capacity
    ensures Refilled(b, now).tokens - 1 <= Refilled(Refilled(b, poll), now).tokens <= Refilled(b, now).tokens
  {
    var x, y := Owed(b.rate, poll - b.last), Owed(b.rate, now - poll);
    OwedNonnegative(b.rate, poll - b.last);
    OwedNonnegative(b.rate, now - poll);
    OwedAdds(b.rate, poll - b.last, now - poll);
    assert poll - b.last + (now - poll) == now - b.last;
    FloorAdds(x, y);
    RefillFits(b, now);
    RefillFits(b, poll);
    if x >= 1.0 {
      RefillFits(Refilled(b, poll), now);
    }
  }

  predicate AllPolls(calls: seq<Call>) {
    forall c :: c in calls ==> c.Poll?
  }

  /** The polls of a run that collect something. */
  function Productive(b: Bucket, polls: seq<Call>): nat {
    if polls == [] then 0
    else
      var front := polls[..|polls| - 1];
      Productive(b, front) + if Gain(After(b, front), polls[|polls| - 1].now) > 0 then 1 else 0
  }

  /** `r` is what `k` productive polls make of `b` by the time `latest`. */
  ghost predicate Polled(b: Bucket, r: Bucket, k: nat, latest: real) {
    && r == b.(tokens := r.tokens, last := r.last)
    && r.tokens <= b.capacity && b.last <= r.last <= latest
    && r.tokens <= b.tokens + Earned(b.rate, r.last - b.last)
    && Owed(b.rate, latest - r.last) < 1.0
    && (|| b.capacity <= r.tokens + k
        || b.tokens as real + Owed(b.rate, r.last - b.last) <= (r.tokens + k) as real)
  }

  lemma OwedMonotone(rate: real, a: real, b: real)
    requires a <= b
    ensures Owed(rate, a) <= Owed(rate, b)
  {
    if a >= 0.0 {
      OwedAdds(rate, a, b - a);
      OwedNonnegative(rate, b - a);
    } else {
      OwedNonnegative(rate, b);
    }
  }

  lemma PollStep(b: Bucket, r: Bucket, k: nat, latest: real, now: real)
    requires b.tokens <= b.capacity && Polled(b, r, k, latest)
    requires Fits(b, if now > latest then now else latest)
    ensures var productive := if Gain(r, now) > 0 then 1 else 0;
            Polled(b, Refilled(r, now), k + productive, if now > latest then now else latest)
  {
    if now <= latest {
      OwedMonotone(b.rate, now - r.last, latest - r.last);
    } else {
      OwedAdds(b.rate, r.last - b.last, now - r.last);
      assert r.last - b.last + (now - r.last) == now - b.last;
      OwedNonnegative(b.rate, r.last - b.last);
      OwedNonnegative(b.rate, now - r.last);
      RefillFits(r, now);
      RefillBooks(r, now, b.last);
    }
  }

  /**
    * Over any sequence of polls, what the bucket holds falls short of what one
    * refill at the end would give by at most one token for each poll that
    * collected something, and never exceeds it.
    */
  lemma {:induction false} PollingCost(b: Bucket, polls: seq<Call>)
    requires b.tokens <= b.capacity && AllPolls(polls) && Fits(b, Latest(b.last, polls))
    ensures var best := Min(b.tokens + Earned(b.rate, Latest(b.last, polls) - b.last), b.capacity);
            best - Productive(b, polls) <= After(b, polls).tokens <= best
  {
    PolledThroughout(b, polls);
    PolledGap(b, After(b, polls), Productive(b, polls), Latest(b.last, polls));
  }

  lemma PolledGap(b: Bucket, r: Bucket, k: nat, latest: real)
    requires Polled(b, r, k, latest)
    ensures var best := Min(b.tokens + Earned(b.rate, latest - b.last), b.capacity);
            best - k <= r.tokens <= best
  {
    OwedAdds(b.rate, r.last - b.last, latest - r.last);
    assert r.last - b.last + (latest - r.last) == latest - b.last;
    OwedNonnegative(b.rate, r.last - b.last);
    OwedNonnegative(b.rate, latest - r.last);
    Shortfall(b, r.tokens, k, Owed(b.rate, r.last - b.last), Owed(b.rate, latest - r.last));
  }

  /** The fraction still owed makes no whole token beyond those already counted. */
  lemma Shortfall(b: Bucket, tokens: nat, k: nat, booked: real, open: real)
    requires 0.0 <= booked && 0.0 <= open < 1.0
    requires tokens <= b.capacity && tokens <= b.tokens + booked.Floor
    requires b.capacity <= tokens + k || b.tokens as real + booked <= (tokens + k) as real
    ensures Min(b.tokens + (booked + open).Floor, b.capacity) - k <= tokens
            <= Min(b.tokens + (booked + open).Floor, b.capacity)
  {
    FloorAdds(booked, open);
    if b.capacity > tokens + k {
      assert b.tokens + booked.Floor <= tokens + k;
      assert booked > booked.Floor as real ==> b.tokens + booked.Floor < tokens + k;
    }
  }

  lemma {:induction false} PolledThroughout(b: Bucket, polls: seq<Call>)
    requires b.tokens <= b.capacity && AllPolls(polls) && Fits(b, Latest(b.last, polls))
    ensures Polled(b, After(b, polls), Productive(b, polls), Latest(b.last, polls))
  {
    if polls != [] {
      var front, now := polls[..|polls| - 1], polls[|polls| - 1].now;
      assert polls[|polls| - 1] in polls;
      var latest := Latest(b.last, front);
      OwedMonotone(b.rate, latest - b.last, Latest(b.last, polls) - b.last);
      PolledThroughout(b, front);
      PollStep(b, After(b, front), Productive(b, front), latest, now);
    }
  }

  /** One token a second, polled after a second and a half: at two seconds the second token is not there. */
  lemma PollCanDelay()
    ensures var b := Bucket(10, 0, 1.0, 0.0);
            Refilled(Refilled(b, 1.5), 2.0).tokens == 1 && Refilled(b, 2.0).tokens == 2
  {
    var b := Bucket(10, 0, 1.0, 0.0);
    assert Owed(1.0, 1.5) == 1.5 && Owed(1.0, 2.0) == 2.0 && Owed(1.0, 0.5) == 0.5;
    assert Refilled(b, 1.5) == b.(tokens := 1, last := 1.5);
  }
}
