/**
  The decision of `ChaosEngine::process` (crates/mabi-chaos/src/engine.rs): the
  behaviours of the active faults are merged one after the other, with early
  exits. A fault is an abstract step on the request context.
 */
module FaultProcess {

  datatype Behavior =
    | Continue
    | Skip
    | Abort(error: string)
    | Delay(durationMs: nat)
    | Modify
    | Retry(maxAttempts: nat)
    | ReturnError(code: int, message: string)
  {
    predicate ShouldProceed() {
      Continue? || Delay? || Modify?
    }

    /** The behaviours that keep the operation from going ahead. */
    predicate Blocking() {
      Abort? || Skip? || ReturnError?
    }
  }

  /** `merge_behaviors`, arm by arm. */
  function Merge(a: Behavior, b: Behavior): Behavior {
    if a.Abort? then a
    else if b.Abort? then b
    else if a.Skip? then a
    else if b.Skip? then b
    else if a.ReturnError? then a
    else if b.ReturnError? then b
    else if a.Delay? && b.Delay? then Delay(if a.durationMs >= b.durationMs then a.durationMs else b.durationMs)
    else if a.Delay? then a
    else if b.Delay? then b
    else if a.Modify? then a
    else if b.Modify? then b
    else Continue
  }

  datatype Attempt<+T> = Ok(value: T) | Failed(error: string)

  /** The part of a request's context that decisions depend on; the rest is `payload`. */
  datatype Context = Context(skipRemaining: bool, payload: string)

  datatype Fault = Fault(
    shouldActivate: Context -> Attempt<bool>,
    beforeOperation: Context -> (Context, Attempt<Behavior>))

  type FaultMap = map<string, Fault>

  datatype Verdict = Decided(behavior: Behavior) | Error(error: string)

  // ---------------------------------------------------------------------------
  // What the faults would do, if none of them stopped the walk
  // ---------------------------------------------------------------------------

  /** Attempts in order: failed checks, and behaviours of faults that choose to act. */
  function Attempts(faults: FaultMap, ids: seq<string>, ctx: Context): seq<Attempt<Behavior>> {
    if ids == [] || ctx.skipRemaining then []
    else if ids[0] !in faults then Attempts(faults, ids[1..], ctx)
    else
      match faults[ids[0]].shouldActivate(ctx)
      case Failed(e) => [Failed(e)] + Attempts(faults, ids[1..], ctx)
      case Ok(acts) =>
        if !acts then Attempts(faults, ids[1..], ctx)
        else
          var (after, attempt) := faults[ids[0]].beforeOperation(ctx);
          [attempt] + Attempts(faults, ids[1..], after)
  }

  // ---------------------------------------------------------------------------
  // The specification
  // ---------------------------------------------------------------------------

  /** An attempt that ends the walk: a blocking behaviour, or an error that is not passed over. */
  predicate Decisive(attempt: Attempt<Behavior>, continueOnError: bool) {
    if attempt.Ok? then attempt.value.Blocking() else !continueOnError
  }

  function LongestDelay(attempts: seq<Attempt<Behavior>>): nat {
    if attempts == [] then 0
    else
      var rest := LongestDelay(attempts[1..]);
      if attempts[0].Ok? && attempts[0].value.Delay? && attempts[0].value.durationMs > rest
      then attempts[0].value.durationMs else rest
  }

  predicate HasDelay(attempts: seq<Attempt<Behavior>>) {
    exists i :: 0 <= i < |attempts| && attempts[i].Ok? && attempts[i].value.Delay?
  }

  /** The longest delay if any, else a modification if any, else nothing. */
  function Summary(attempts: seq<Attempt<Behavior>>): Behavior {
    if HasDelay(attempts) then Delay(LongestDelay(attempts))
    else if Ok(Modify) in attempts then Modify
    else Continue
  }

  /** Where the walk ends: the first decisive attempt, or behind the last one. */
  function FirstDecisive(attempts: seq<Attempt<Behavior>>, continueOnError: bool): (k: nat)
    ensures k <= |attempts|
    ensures forall j :: 0 <= j < k ==> !Decisive(attempts[j], continueOnError)
    ensures k < |attempts| ==> Decisive(attempts[k], continueOnError)
  {
    if attempts == [] || Decisive(attempts[0], continueOnError) then 0
    else 1 + FirstDecisive(attempts[1..], continueOnError)
  }

  /** The first decisive attempt, or the summary of all of them. */
  function VerdictOf(attempts: seq<Attempt<Behavior>>, continueOnError: bool): Verdict {
    var k := FirstDecisive(attempts, continueOnError);
    if k == |attempts| then Decided(Summary(attempts))
    else Outcome(attempts[k])
  }

  function Outcome(attempt: Attempt<Behavior>): Verdict {
    match attempt
    case Ok(b) => Decided(b)
    case Failed(e) => Error(e)
  }

  // ---------------------------------------------------------------------------
  // Merging is summing up
  // ---------------------------------------------------------------------------

  /** How strongly a behaviour asks for its way; a retry asks for nothing. */
  function Rank(b: Behavior): nat {
    match b
    case Abort(_) => 5
    case Skip => 4
    case ReturnError(_, _) => 3
    case Delay(_) => 2
    case Modify => 1
    case Continue => 0
    case Retry(_) => 0
  }

  /** The stronger behaviour wins, the first of two equally strong ones, the longer of two delays. */
  lemma MergePriority(a: Behavior, b: Behavior)
    ensures Rank(a) > Rank(b) ==> Merge(a, b) == a
    ensures Rank(a) < Rank(b) ==> Merge(a, b) == b
    ensures Rank(a) == Rank(b) > 2 ==> Merge(a, b) == a
    ensures a.Delay? && b.Delay? ==>
      Merge(a, b) in {a, b} && Merge(a, b).durationMs >= a.durationMs && Merge(a, b).durationMs >= b.durationMs
    ensures Rank(a) == Rank(b) == 1 ==> Merge(a, b) == Modify
    ensures Rank(a) == Rank(b) == 0 ==> Merge(a, b) == Continue
  {
  }

  /** The longest delay is one of the delays and no delay is longer. */
  lemma {:induction false} LongestDelayIs(attempts: seq<Attempt<Behavior>>)
    ensures forall d: nat :: Ok(Delay(d)) in attempts ==> d <= LongestDelay(attempts)
    ensures HasDelay(attempts) ==> Ok(Delay(LongestDelay(attempts))) in attempts
    ensures !HasDelay(attempts) ==> LongestDelay(attempts) == 0
  {
    if attempts != [] {
      var rest := attempts[1..];
      LongestDelayIs(rest);
      assert attempts == [attempts[0]] + rest;
      if i :| 0 <= i < |rest| && rest[i].Ok? && rest[i].value.Delay? {
        assert attempts[i + 1] == rest[i];
      }
      if HasDelay(attempts) && !HasDelay(rest) {
        assert attempts[0].Ok? && attempts[0].value.Delay?;
      }
    }
  }

  lemma HasDelayIs(attempts: seq<Attempt<Behavior>>)
    ensures HasDelay(attempts) <==> exists d: nat :: Ok(Delay(d)) in attempts
  {
    if i :| 0 <= i < |attempts| && attempts[i].Ok? && attempts[i].value.Delay? {
      assert Ok(Delay(attempts[i].value.durationMs)) in attempts;
    }
  }

  /** One more behaviour that does not block: merging follows the summary. */
  lemma MergeSums(done: seq<Attempt<Behavior>>, b: Behavior)
    requires !b.Blocking()
    ensures Merge(Summary(done), b) == Summary(done + [Ok(b)])
  {
    var all := done + [Ok(b)];
    HasDelayIs(done);
    HasDelayIs(all);
    LongestDelayIs(done);
    LongestDelayIs(all);
    assert forall a :: a in all <==> a in done || a == Ok(b);
  }

  lemma FailureAddsNothing(done: seq<Attempt<Behavior>>, e: string)
    ensures Summary(done + [Failed(e)]) == Summary(done)
  {
    var all := done + [Failed(e)];
    HasDelayIs(done);
    HasDelayIs(all);
    LongestDelayIs(done);
    LongestDelayIs(all);
    assert forall a :: a in all <==> a in done || a == Failed(e);
  }

  lemma MergeBlocks(done: seq<Attempt<Behavior>>, b: Behavior)
    requires b.Blocking()
    ensures Merge(Summary(done), b) == b
  {
  }

  lemma {:induction false} FirstDecisiveAt(done: seq<Attempt<Behavior>>, rest: seq<Attempt<Behavior>>, continueOnError: bool)
    requires forall j :: 0 <= j < |done| ==> !Decisive(done[j], continueOnError)
    requires rest != [] && Decisive(rest[0], continueOnError)
    ensures VerdictOf(done + rest, continueOnError) == Outcome(rest[0])
  {
    var all := done + rest;
    var k := FirstDecisive(all, continueOnError);
    assert all[|done|] == rest[0];
    assert k == |done| by {
      assert forall j :: 0 <= j < |done| ==> all[j] == done[j];
    }
  }

  // ---------------------------------------------------------------------------
  // The walk
  // ---------------------------------------------------------------------------

  /** What a fault says when it is asked: nothing, or an attempt. */
  datatype Response = Quiet | Gives(attempt: Attempt<Behavior>)

  function ResponseOf(fault: Fault, ctx: Context): Response {
    match fault.shouldActivate(ctx)
    case Failed(e) => Gives(Failed(e))
    case Ok(acts) => if acts then Gives(fault.beforeOperation(ctx).1) else Quiet
  }

  function ContextAfter(fault: Fault, ctx: Context): Context {
    if fault.shouldActivate(ctx) == Ok(true) then fault.beforeOperation(ctx).0 else ctx
  }

  /** Asks a fault whether it acts and, if so, lets it act on the context. */
  method Ask(fault: Fault, ctx: Context) returns (answer: Response, after: Context)
    ensures answer == ResponseOf(fault, ctx) && after == ContextAfter(fault, ctx)
  {
    var check := fault.shouldActivate(ctx);
    match check {
      case Failed(e) => return Gives(Failed(e)), ctx;
      case Ok(acts) =>
        if !acts {
          return Quiet, ctx;
        }
        var (changed, attempt) := fault.beforeOperation(ctx);
        return Gives(attempt), changed;
    }
  }

  lemma AttemptsNext(faults: FaultMap, ids: seq<string>, i: nat, ctx: Context)
    requires i < |ids| && !ctx.skipRemaining
    ensures var all := Attempts(faults, ids[i..], ctx);
      if ids[i] !in faults then all == Attempts(faults, ids[i + 1..], ctx)
      else
        var rest := Attempts(faults, ids[i + 1..], ContextAfter(faults[ids[i]], ctx));
        match ResponseOf(faults[ids[i]], ctx)
        case Quiet => all == rest
        case Gives(a) => all == [a] + rest
  {
    assert ids[i..][1..] == ids[i + 1..];
  }

  /** The context that is left once the faults have been asked, in order, until one tells the others to stay out. */
  function ContextThrough(faults: FaultMap, ids: seq<string>, ctx: Context): Context {
    if ids == [] || ctx.skipRemaining then ctx
    else if ids[0] !in faults then ContextThrough(faults, ids[1..], ctx)
    else ContextThrough(faults, ids[1..], ContextAfter(faults[ids[0]], ctx))
  }

  /** One fault: an id that is not registered, a check that fails, a refusal to act, or a behaviour. */
  lemma OneFault(faults: FaultMap, id: string, ctx: Context)
    ensures Attempts(faults, [id], ctx) ==
      if ctx.skipRemaining || id !in faults then []
      else if faults[id].shouldActivate(ctx).Failed? then [Failed(faults[id].shouldActivate(ctx).error)]
      else if faults[id].shouldActivate(ctx).value then [faults[id].beforeOperation(ctx).1]
      else []
    ensures ContextThrough(faults, [id], ctx) ==
      if !ctx.skipRemaining && id in faults && faults[id].shouldActivate(ctx) == Ok(true)
      then faults[id].beforeOperation(ctx).0 else ctx
  {
    assert [id][1..] == [];
    if !ctx.skipRemaining && id in faults {
      var after := faults[id].beforeOperation(ctx).0;
      assert Attempts(faults, [], ctx) == [] && Attempts(faults, [], after) == [];
      assert ContextThrough(faults, [], ctx) == ctx && ContextThrough(faults, [], after) == after;
    }
  }

  lemma ContextNext(faults: FaultMap, a: seq<string>, b: seq<string>, ctx: Context)
    requires a != [] && !ctx.skipRemaining
    ensures var next := if a[0] in faults then ContextAfter(faults[a[0]], ctx) else ctx;
      && ContextThrough(faults, a, ctx) == ContextThrough(faults, a[1..], next)
      && ContextThrough(faults, a + b, ctx) == ContextThrough(faults, a[1..] + b, next)
  {
    assert (a + b)[1..] == a[1..] + b;
  }

  /** The walk over two lists: the second is asked in the context that the first leaves. */
  lemma {:induction false} AttemptsConcat(faults: FaultMap, a: seq<string>, b: seq<string>, ctx: Context)
    ensures Attempts(faults, a + b, ctx) == Attempts(faults, a, ctx) + Attempts(faults, b, ContextThrough(faults, a, ctx))
    ensures ContextThrough(faults, a + b, ctx) == ContextThrough(faults, b, ContextThrough(faults, a, ctx))
  {
    if a == [] {
      assert a + b == b;
    } else if !ctx.skipRemaining {
      var all := a + b;
      assert a[0..] == a && all[0..] == all && all[1..] == a[1..] + b;
      AttemptsNext(faults, a, 0, ctx);
      AttemptsNext(faults, all, 0, ctx);
      ContextNext(faults, a, b, ctx);
      AttemptsConcat(faults, a[1..], b, if a[0] in faults then ContextAfter(faults[a[0]], ctx) else ctx);
    }
  }

  /** Once a fault has raised the flag, the faults behind it are not asked, and they leave the context alone. */
  lemma {:induction false} FlagEndsWalk(faults: FaultMap, a: seq<string>, b: seq<string>, ctx: Context)
    requires ContextThrough(faults, a, ctx).skipRemaining
    ensures Attempts(faults, a + b, ctx) == Attempts(faults, a, ctx)
    ensures ContextThrough(faults, a + b, ctx) == ContextThrough(faults, a, ctx)
  {
    AttemptsConcat(faults, a, b, ctx);
  }

  /** The walk of `process` over the active faults. */
  method Process(faults: FaultMap, ids: seq<string>, context: Context, continueOnError: bool) returns (v: Verdict)
    ensures v == VerdictOf(Attempts(faults, ids, context), continueOnError)
  {
    var ctx := context;
    var final := Continue;
    ghost var done: seq<Attempt<Behavior>> := [];
    ghost var all := Attempts(faults, ids, context);
    var i := 0;
    while i < |ids|
      invariant 0 <= i <= |ids|
      invariant all == done + Attempts(faults, ids[i..], ctx)
      invariant forall j :: 0 <= j < |done| ==> !Decisive(done[j], continueOnError)
      invariant final == Summary(done)
    {
      if ctx.skipRemaining {
        break;
      }
      AttemptsNext(faults, ids, i, ctx);
      if ids[i] in faults {
        ghost var rest := Attempts(faults, ids[i..], ctx);
        var answer, after := Ask(faults[ids[i]], ctx);
        ctx := after;
        if answer.Gives? {
          var merged, stop := Step(answer.attempt, final, continueOnError, done, rest);
          if stop {
            return merged;
          }
          final := merged.behavior;
          done := done + [answer.attempt];
        }
      }
      i := i + 1;
    }
    assert Attempts(faults, ids[i..], ctx) == [];
    assert all == done;
    return Decided(final);
  }

  /** Takes one answer in: an error that is not passed over or a blocking behaviour ends the walk. */
  method Step(attempt: Attempt<Behavior>, final: Behavior, continueOnError: bool,
              ghost done: seq<Attempt<Behavior>>, ghost rest: seq<Attempt<Behavior>>) returns (v: Verdict, stop: bool)
    requires final == Summary(done) && rest != [] && rest[0] == attempt
    requires forall j :: 0 <= j < |done| ==> !Decisive(done[j], continueOnError)
    ensures stop <==> Decisive(attempt, continueOnError)
    ensures stop ==> v == VerdictOf(done + rest, continueOnError)
    ensures !stop ==> v == Decided(Summary(done + [attempt]))
  {
    match attempt {
      case Failed(e) =>
        if !continueOnError {
          FirstDecisiveAt(done, rest, continueOnError);
          return Error(e), true;
        }
        FailureAddsNothing(done, e);
        return Decided(final), false;
      case Ok(behavior) =>
        var merged := Merge(final, behavior);
        if behavior.Blocking() {
          MergeBlocks(done, behavior);
          FirstDecisiveAt(done, rest, continueOnError);
        } else {
          MergeSums(done, behavior);
        }
        return Decided(merged), !merged.ShouldProceed();
    }
  }

  // ---------------------------------------------------------------------------
  // What the verdict can be
  // ---------------------------------------------------------------------------

  /** A retry is never the verdict, and a blocking one is what some fault asked for. */
  lemma VerdictShape(attempts: seq<Attempt<Behavior>>, continueOnError: bool)
    ensures var v := VerdictOf(attempts, continueOnError);
      && (v.Decided? ==> !v.behavior.Retry?)
      && (v.Decided? && v.behavior.Blocking() ==> Ok(v.behavior) in attempts)
      && (v.Error? ==> !continueOnError && Failed(v.error) in attempts)
  {
  }

  /** A block, an abort, an error of the fault's choosing, or a failure that is not passed over. */
  predicate Final(attempt: Attempt<Behavior>, continueOnError: bool) {
    match attempt
    case Failed(_) => !continueOnError
    case Ok(b) => b.Abort? || b.Skip? || b.ReturnError?
  }

  /** The first final attempt is the verdict. */
  lemma {:induction false} FirstFinalDecides(attempts: seq<Attempt<Behavior>>, k: nat, continueOnError: bool)
    requires k < |attempts| && Final(attempts[k], continueOnError)
    requires forall j :: 0 <= j < k ==> !Final(attempts[j], continueOnError)
    ensures VerdictOf(attempts, continueOnError) ==
      match attempts[k] case Ok(b) => Decided(b) case Failed(e) => Error(e)
  {
    FirstDecisiveAt(attempts[..k], attempts[k..], continueOnError);
    assert attempts[..k] + attempts[k..] == attempts;
  }

  /** Without one, the verdict is the longest delay asked for, else a modification asked for, else to go on. */
  lemma {:induction false} NoFinalSumsUp(attempts: seq<Attempt<Behavior>>, continueOnError: bool)
    requires forall j :: 0 <= j < |attempts| ==> !Final(attempts[j], continueOnError)
    ensures var v := VerdictOf(attempts, continueOnError);
      && (forall d: nat :: v == Decided(Delay(d)) <==>
            Ok(Delay(d)) in attempts && forall l: nat :: Ok(Delay(l)) in attempts ==> l <= d)
      && (v == Decided(Modify) <==> Ok(Modify) in attempts && forall l: nat :: Ok(Delay(l)) !in attempts)
      && (v == Decided(Continue) <==> Ok(Modify) !in attempts && forall l: nat :: Ok(Delay(l)) !in attempts)
  {
    HasDelayIs(attempts);
    LongestDelayIs(attempts);
  }

  // ---------------------------------------------------------------------------
  // The order in which the registry lists the faults
  // ---------------------------------------------------------------------------

  predicate OneDecision(attempts: seq<Attempt<Behavior>>, continueOnError: bool) {
    forall i, j :: 0 <= i < j < |attempts| && Decisive(attempts[i], continueOnError) && Decisive(attempts[j], continueOnError)
      ==> attempts[i] == attempts[j]
  }

  lemma SameMembers(a: seq<Attempt<Behavior>>, b: seq<Attempt<Behavior>>)
    requires multiset(a) == multiset(b)
    ensures forall x :: x in a <==> x in b
  {
    assert forall x :: x in a <==> x in multiset(a);
    assert forall x :: x in b <==> x in multiset(b);
  }

  lemma SummaryIgnoresOrder(a: seq<Attempt<Behavior>>, b: seq<Attempt<Behavior>>)
    requires forall x :: x in a <==> x in b
    ensures Summary(a) == Summary(b)
  {
    HasDelayIs(a);
    HasDelayIs(b);
    LongestDelayIs(a);
    LongestDelayIs(b);
  }

  lemma OneDecisionAnyOrder(a: seq<Attempt<Behavior>>, b: seq<Attempt<Behavior>>, continueOnError: bool)
    requires multiset(a) == multiset(b) && OneDecision(a, continueOnError)
    ensures VerdictOf(a, continueOnError) == VerdictOf(b, continueOnError)
  {
    SameMembers(a, b);
    SummaryIgnoresOrder(a, b);
    var i, j := FirstDecisive(a, continueOnError), FirstDecisive(b, continueOnError);
    if i < |a| {
      assert a[i] in a;
      var k :| 0 <= k < |b| && b[k] == a[i];
      assert j <= k && b[j] in b;
      var m :| 0 <= m < |a| && a[m] == b[j];
    } else {
      forall k | 0 <= k < |b|
        ensures !Decisive(b[k], continueOnError)
      {
        assert b[k] in b;
        var m :| 0 <= m < |a| && a[m] == b[k];
      }
    }
  }

  /** Moving one attempt to the front. */
  function ToFront(a: seq<Attempt<Behavior>>, k: nat): (b: seq<Attempt<Behavior>>)
    requires k < |a|
    ensures multiset(b) == multiset(a) && b[0] == a[k]
  {
    assert a == a[..k] + [a[k]] + a[k + 1..];
    [a[k]] + a[..k] + a[k + 1..]
  }

  /**
    The verdict is the same for every order of the attempts exactly when no two
    different ones are decisive; with none decisive that is always so.
   */
  lemma OrderMattersIff(a: seq<Attempt<Behavior>>, continueOnError: bool)
    ensures (forall b :: multiset(b) == multiset(a) ==> VerdictOf(b, continueOnError) == VerdictOf(a, continueOnError))
       <==> OneDecision(a, continueOnError)
  {
    if OneDecision(a, continueOnError) {
      forall b | multiset(b) == multiset(a)
        ensures VerdictOf(b, continueOnError) == VerdictOf(a, continueOnError)
      {
        OneDecisionAnyOrder(a, b, continueOnError);
      }
    } else {
      var i, j :| 0 <= i < j < |a| && Decisive(a[i], continueOnError) && Decisive(a[j], continueOnError) && a[i] != a[j];
      FirstDecisiveAt([], ToFront(a, i), continueOnError);
      FirstDecisiveAt([], ToFront(a, j), continueOnError);
      assert [] + ToFront(a, i) == ToFront(a, i) && [] + ToFront(a, j) == ToFront(a, j);
    }
  }

  // ---------------------------------------------------------------------------
  // Faults that answer alike in every context
  // ---------------------------------------------------------------------------

  /** The fault gives the same answer in every context and, if it acts, lets the others run. */
  ghost predicate Steady(fault: Fault, response: Response) {
    forall ctx: Context :: !ctx.skipRemaining ==>
      && ResponseOf(fault, ctx) == response
      && (fault.shouldActivate(ctx) == Ok(true) ==> !fault.beforeOperation(ctx).0.skipRemaining)
  }

  function Answer(responses: map<string, Response>, id: string): Response {
    if id in responses then responses[id] else Quiet
  }

  /** The answers of the faults that do not stay quiet, in the given order. */
  function Collect(responses: map<string, Response>, ids: seq<string>): seq<Attempt<Behavior>> {
    if ids == [] then []
    else
      var rest := Collect(responses, ids[1..]);
      match Answer(responses, ids[0])
      case Quiet => rest
      case Gives(a) => [a] + rest
  }

  lemma {:induction false} SteadyAttempts(faults: FaultMap, responses: map<string, Response>, ids: seq<string>, ctx: Context)
    requires !ctx.skipRemaining && AllSteady(faults, responses, ids)
    ensures Attempts(faults, ids, ctx) == Collect(responses, ids)
  {
    if ids != [] {
      var fault := faults[ids[0]];
      assert Steady(fault, responses[ids[0]]) && ResponseOf(fault, ctx) == responses[ids[0]];
      var check := fault.shouldActivate(ctx);
      SteadyAttempts(faults, responses, ids[1..],
                     if check.Ok? && check.value then fault.beforeOperation(ctx).0 else ctx);
    }
  }

  ghost predicate AllSteady(faults: FaultMap, responses: map<string, Response>, ids: seq<string>) {
    forall i :: 0 <= i < |ids| ==> ids[i] in responses && ids[i] in faults && Steady(faults[ids[i]], responses[ids[i]])
  }

  lemma SteadyAnyOrder(faults: FaultMap, responses: map<string, Response>, a: seq<string>, b: seq<string>)
    requires AllSteady(faults, responses, a) && multiset(a) == multiset(b)
    ensures AllSteady(faults, responses, b)
  {
    forall i | 0 <= i < |b|
      ensures b[i] in responses && b[i] in faults && Steady(faults[b[i]], responses[b[i]])
    {
      assert b[i] in multiset(b);
      var k :| 0 <= k < |a| && a[k] == b[i];
    }
  }

  function Answered(r: Response): multiset<Attempt<Behavior>> {
    match r
    case Quiet => multiset{}
    case Gives(a) => multiset{a}
  }

  lemma CollectCons(responses: map<string, Response>, x: string, ids: seq<string>)
    ensures multiset(Collect(responses, [x] + ids)) == Answered(Answer(responses, x)) + multiset(Collect(responses, ids))
  {
    assert ([x] + ids)[1..] == ids;
  }

  /** `more` has the answers of `fewer` and that of `x`. */
  ghost predicate Adds(responses: map<string, Response>, x: string, more: seq<string>, fewer: seq<string>) {
    multiset(Collect(responses, more)) == Answered(Answer(responses, x)) + multiset(Collect(responses, fewer))
  }

  lemma {:induction false} AddsCons(responses: map<string, Response>, x: string, y: string, more: seq<string>, fewer: seq<string>)
    requires Adds(responses, x, more, fewer)
    ensures Adds(responses, x, [y] + more, [y] + fewer)
  {
    CollectCons(responses, y, more);
    CollectCons(responses, y, fewer);
  }

  lemma TakeFirst(before: seq<string>, x: string, behind: seq<string>)
    requires before != []
    ensures before + [x] + behind == [before[0]] + (before[1..] + [x] + behind)
    ensures before + behind == [before[0]] + (before[1..] + behind)
  {
  }

  /** One fault put somewhere: its answer, if any, joins the answers of the others. */
  lemma {:induction false} CollectInsert(responses: map<string, Response>, before: seq<string>, x: string, behind: seq<string>)
    ensures Adds(responses, x, before + [x] + behind, before + behind)
  {
    if before == [] {
      CollectCons(responses, x, behind);
      assert before + [x] + behind == [x] + behind && before + behind == behind;
    } else {
      var y, rest := before[0], before[1..];
      CollectInsert(responses, rest, x, behind);
      AddsCons(responses, x, y, rest + [x] + behind, rest + behind);
      TakeFirst(before, x, behind);
    }
  }

  lemma {:induction false} AddsAt(responses: map<string, Response>, ids: seq<string>, k: nat)
    requires k < |ids|
    ensures Adds(responses, ids[k], ids, ids[..k] + ids[k + 1..])
  {
    CollectInsert(responses, ids[..k], ids[k], ids[k + 1..]);
    assert ids == ids[..k] + [ids[k]] + ids[k + 1..];
  }

  lemma {:induction false} CollectIgnoresOrder(responses: map<string, Response>, a: seq<string>, b: seq<string>)
    requires multiset(a) == multiset(b)
    ensures multiset(Collect(responses, a)) == multiset(Collect(responses, b))
  {
    if a == [] {
      assert |multiset(b)| == |b| == 0;
    } else {
      var k := PositionOf(a, b);
      CollectIgnoresOrder(responses, a[1..], b[..k] + b[k + 1..]);
      AddsAt(responses, a, 0);
      AddsAt(responses, b, k);
      assert a[..0] + a[1..] == a[1..];
    }
  }

  /** The first of `a` within a rearrangement of `a`, and what is left on both sides. */
  lemma PositionOf(a: seq<string>, b: seq<string>) returns (k: nat)
    requires a != [] && multiset(a) == multiset(b)
    ensures k < |b| && b[k] == a[0] && multiset(a[1..]) == multiset(b[..k] + b[k + 1..])
  {
    assert a == [a[0]] + a[1..];
    assert a[0] in multiset(b);
    k :| 0 <= k < |b| && b[k] == a[0];
    assert b == b[..k] + [b[k]] + b[k + 1..];
    assert multiset(b[..k] + b[k + 1..]) == multiset(b) - multiset{a[0]};
    assert multiset(a[1..]) == multiset(a) - multiset{a[0]};
  }

  /** Whatever was answered was some fault's answer. */
  lemma {:induction false} CollectedFrom(responses: map<string, Response>, ids: seq<string>, i: nat) returns (k: nat)
    requires i < |Collect(responses, ids)|
    ensures k < |ids| && Answer(responses, ids[k]) == Gives(Collect(responses, ids)[i])
  {
    if Answer(responses, ids[0]).Quiet? {
      k := CollectedFrom(responses, ids[1..], i);
      k := k + 1;
    } else if i == 0 {
      k := 0;
    } else {
      k := CollectedFrom(responses, ids[1..], i - 1);
      k := k + 1;
    }
  }

  /** The ids with the one at `k` first. */
  function First(ids: seq<string>, k: nat): (r: seq<string>)
    requires k < |ids|
    ensures multiset(r) == multiset(ids) && r != [] && r[0] == ids[k]
  {
    assert ids == ids[..k] + [ids[k]] + ids[k + 1..];
    [ids[k]] + (ids[..k] + ids[k + 1..])
  }

  /** A fault that decides, asked first, decides. */
  lemma FirstDecides(faults: FaultMap, responses: map<string, Response>, ids: seq<string>, k: nat, x: Attempt<Behavior>,
                     ctx: Context, continueOnError: bool)
    requires !ctx.skipRemaining && AllSteady(faults, responses, ids) && k < |ids|
    requires Answer(responses, ids[k]) == Gives(x) && Decisive(x, continueOnError)
    ensures VerdictOf(Attempts(faults, First(ids, k), ctx), continueOnError) == Outcome(x)
  {
    var b := First(ids, k);
    SteadyAnyOrder(faults, responses, ids, b);
    SteadyAttempts(faults, responses, b, ctx);
    var all := Collect(responses, b);
    assert all[0] == x && [] + all == all;
    FirstDecisiveAt([], all, continueOnError);
  }

  /** The verdict over these faults is the same in every order of the registry. */
  ghost predicate AnyOrder(faults: FaultMap, ids: seq<string>, ctx: Context, continueOnError: bool) {
    forall b :: multiset(b) == multiset(ids) ==>
      VerdictOf(Attempts(faults, b, ctx), continueOnError) == VerdictOf(Attempts(faults, ids, ctx), continueOnError)
  }

  /**
    Faults that answer alike in every context: the verdict is the same for
    every order of the registry if and only if no two answers that decide differ.
   */
  lemma ProcessIgnoresOrderIff(faults: FaultMap, responses: map<string, Response>, ids: seq<string>, ctx: Context,
                               continueOnError: bool)
    requires !ctx.skipRemaining && AllSteady(faults, responses, ids)
    ensures AnyOrder(faults, ids, ctx, continueOnError) <==> OneDecision(Collect(responses, ids), continueOnError)
  {
    var all := Collect(responses, ids);
    SteadyAttempts(faults, responses, ids, ctx);
    if OneDecision(all, continueOnError) {
      forall b | multiset(b) == multiset(ids)
        ensures VerdictOf(Attempts(faults, b, ctx), continueOnError) == VerdictOf(Attempts(faults, ids, ctx), continueOnError)
      {
        SteadyAnyOrder(faults, responses, ids, b);
        SteadyAttempts(faults, responses, b, ctx);
        CollectIgnoresOrder(responses, ids, b);
        OneDecisionAnyOrder(all, Collect(responses, b), continueOnError);
      }
    } else {
      var i, j :| 0 <= i < j < |all| && Decisive(all[i], continueOnError) && Decisive(all[j], continueOnError) && all[i] != all[j];
      var k := CollectedFrom(responses, ids, i);
      var l := CollectedFrom(responses, ids, j);
      FirstDecides(faults, responses, ids, k, all[i], ctx, continueOnError);
      FirstDecides(faults, responses, ids, l, all[j], ctx, continueOnError);
      assert Outcome(all[i]) != Outcome(all[j]);
    }
  }
}
