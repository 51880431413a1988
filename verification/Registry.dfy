/**
  The fault registry (crates/mabi-chaos/src/registry.rs). A fault is seen only
  through its enabled flag; the concurrent map is a map whose iteration order
  is arbitrary.
 */
module Registry {
  import opened Glob

  /** A target is a literal name unless it holds a star. */
  predicate Matches(pattern: string, target: string) {
    if HasStar(pattern) then GlobMatch(pattern, target) else pattern == target
  }

  predicate AnyMatches(patterns: seq<string>, target: string) {
    exists i :: 0 <= i < |patterns| && Matches(patterns[i], target)
  }

  function Without(s: seq<string>, x: string): (r: seq<string>)
    ensures forall y :: y in r <==> y in s && y != x
  {
    if s == [] then []
    else if s[0] == x then Without(s[1..], x) else [s[0]] + Without(s[1..], x)
  }

  predicate NoDuplicates(s: seq<string>) {
    forall i, j :: 0 <= i < j < |s| ==> s[i] != s[j]
  }

  datatype FaultEntry = FaultEntry(enabled: bool, activeTargets: seq<string>, globallyActive: bool)
  {
    predicate IsActiveFor(target: string) {
      globallyActive || AnyMatches(activeTargets, target)
    }

    function ActivateFor(target: string): FaultEntry {
      if target in activeTargets then this else this.(activeTargets := activeTargets + [target])
    }

    function DeactivateFor(target: string): FaultEntry {
      this.(activeTargets := Without(activeTargets, target))
    }

    function Reset(): FaultEntry {
      FaultEntry(enabled, [], false)
    }
  }

  type Faults = map<string, FaultEntry>

  datatype Op =
    | Register(id: string, enabled: bool)
    | Unregister(id: string)
    | Activate(id: string, target: string)
    | Deactivate(id: string, target: string)
    | ActivateGlobally(id: string)
    | DeactivateGlobally(id: string)
    | ResetAll
    | Clear

  datatype Reply = Ok | FaultAlreadyActive(id: string) | FaultNotFound(id: string)

  function Apply(faults: Faults, op: Op): Faults {
    match op
    case Register(id, enabled) => if id in faults then faults else faults[id := FaultEntry(enabled, [], false)]
    case Unregister(id) => faults - {id}
    case Activate(id, target) =>
      if id in faults then faults[id := faults[id].ActivateFor(target).(enabled := true)] else faults
    case Deactivate(id, target) => if id in faults then faults[id := faults[id].DeactivateFor(target)] else faults
    case ActivateGlobally(id) =>
      if id in faults then faults[id := faults[id].(globallyActive := true, enabled := true)] else faults
    case DeactivateGlobally(id) => if id in faults then faults[id := FaultEntry(false, [], false)] else faults
    case ResetAll => map id | id in faults :: faults[id].Reset()
    case Clear => map[]
  }

  function ReplyTo(faults: Faults, op: Op): Reply {
    match op
    case Register(id, _) => if id in faults then FaultAlreadyActive(id) else Ok
    case ResetAll => Ok
    case Clear => Ok
    case _ => if op.id in faults then Ok else FaultNotFound(op.id)
  }

  class FaultRegistry {
    var faults: Faults

    constructor ()
      ensures faults == map[]
    {
      faults := map[];
    }

    method Register(id: string, enabled: bool) returns (r: Reply)
      modifies this
      ensures faults == Apply(old(faults), Op.Register(id, enabled))
      ensures r == ReplyTo(old(faults), Op.Register(id, enabled))
    {
      if id in faults {
        return FaultAlreadyActive(id);
      }
      faults := faults[id := FaultEntry(enabled, [], false)];
      return Ok;
    }

    method Unregister(id: string) returns (r: Reply)
      modifies this
      ensures faults == Apply(old(faults), Op.Unregister(id))
      ensures r == ReplyTo(old(faults), Op.Unregister(id))
    {
      if id !in faults {
        assert faults - {id} == faults;
        return FaultNotFound(id);
      }
      faults := faults - {id};
      return Ok;
    }

    method Activate(id: string, target: string) returns (r: Reply)
      modifies this
      ensures faults == Apply(old(faults), Op.Activate(id, target))
      ensures r == ReplyTo(old(faults), Op.Activate(id, target))
    {
      if id !in faults {
        return FaultNotFound(id);
      }
      var entry := faults[id];
      if target !in entry.activeTargets {
        entry := entry.(activeTargets := entry.activeTargets + [target]);
      }
      faults := faults[id := entry.(enabled := true)];
      return Ok;
    }

    method Deactivate(id: string, target: string) returns (r: Reply)
      modifies this
      ensures faults == Apply(old(faults), Op.Deactivate(id, target))
      ensures r == ReplyTo(old(faults), Op.Deactivate(id, target))
    {
      if id !in faults {
        return FaultNotFound(id);
      }
      faults := faults[id := faults[id].DeactivateFor(target)];
      return Ok;
    }

    method ActivateGlobally(id: string) returns (r: Reply)
      modifies this
      ensures faults == Apply(old(faults), Op.ActivateGlobally(id))
      ensures r == ReplyTo(old(faults), Op.ActivateGlobally(id))
    {
      if id !in faults {
        return FaultNotFound(id);
      }
      faults := faults[id := faults[id].(globallyActive := true, enabled := true)];
      return Ok;
    }

    method DeactivateGlobally(id: string) returns (r: Reply)
      modifies this
      ensures faults == Apply(old(faults), Op.DeactivateGlobally(id))
      ensures r == ReplyTo(old(faults), Op.DeactivateGlobally(id))
    {
      if id !in faults {
        return FaultNotFound(id);
      }
      faults := faults[id := FaultEntry(false, [], false)];
      return Ok;
    }

    /** Walks the map entry by entry, in whatever order it yields them. */
    method ResetAll()
      modifies this
      ensures faults == Apply(old(faults), Op.ResetAll)
    {
      var left := faults.Keys;
      while left != {}
        invariant left <= faults.Keys == old(faults).Keys
        invariant forall id :: id in left ==> faults[id] == old(faults)[id]
        invariant forall id :: id in faults && id !in left ==> faults[id] == old(faults)[id].Reset()
        decreases left
      {
        var id :| id in left;
        faults := faults[id := faults[id].Reset()];
        left := left - {id};
      }
    }

    /** Lists every fault active for the target once, and nothing else. */
    method ActiveFor(target: string) returns (ids: seq<string>)
      ensures NoDuplicates(ids)
      ensures forall id :: id in ids <==> id in faults && faults[id].IsActiveFor(target)
    {
      ids := [];
      var left := faults.Keys;
      while left != {}
        invariant left <= faults.Keys && NoDuplicates(ids)
        invariant forall id :: id in ids <==> id in faults && id !in left && faults[id].IsActiveFor(target)
        decreases left
      {
        var id :| id in left;
        if faults[id].IsActiveFor(target) {
          ids := ids + [id];
        }
        left := left - {id};
      }
    }
  }

  // ---------------------------------------------------------------------------
  // The registry against its history
  // ---------------------------------------------------------------------------

  function After(history: seq<Op>): Faults {
    if history == [] then map[] else Apply(After(history[..|history| - 1]), history[|history| - 1])
  }

  predicate Drops(op: Op, id: string) {
    op == Unregister(id) || op == Clear
  }

  predicate EndsGlobal(op: Op, id: string) {
    Drops(op, id) || op == DeactivateGlobally(id) || op == ResetAll
  }

  predicate EndsTarget(op: Op, id: string, target: string) {
    EndsGlobal(op, id) || op == Deactivate(id, target)
  }

  predicate IsRegister(op: Op, id: string) {
    op.Register? && op.id == id
  }

  predicate RegisteredAt(history: seq<Op>, i: nat, n: nat, id: string)
    requires i < n <= |history|
  {
    IsRegister(history[i], id) && forall j :: i < j < n ==> !Drops(history[j], id)
  }

  /** Among the first `n` operations the fault was registered and not dropped since. */
  predicate RegisteredBy(history: seq<Op>, n: nat, id: string)
    requires n <= |history|
  {
    exists i :: 0 <= i < n && RegisteredAt(history, i, n, id)
  }

  predicate GlobalAt(history: seq<Op>, i: nat, id: string)
    requires i < |history|
  {
    && history[i] == ActivateGlobally(id)
    && RegisteredBy(history, i, id)
    && forall j :: i < j < |history| ==> !EndsGlobal(history[j], id)
  }

  /** Some global activation of the registered fault has not been ended since. */
  predicate GloballyOn(history: seq<Op>, id: string) {
    exists i :: 0 <= i < |history| && GlobalAt(history, i, id)
  }

  predicate TargetAt(history: seq<Op>, i: nat, id: string, target: string)
    requires i < |history|
  {
    && history[i] == Activate(id, target)
    && RegisteredBy(history, i, id)
    && forall j :: i < j < |history| ==> !EndsTarget(history[j], id, target)
  }

  /** Some activation of the registered fault for the target has not been ended since. */
  predicate TargetOn(history: seq<Op>, id: string, target: string) {
    exists i :: 0 <= i < |history| && TargetAt(history, i, id, target)
  }

  lemma RegisteredPrefix(history: seq<Op>, op: Op, n: nat, id: string)
    requires n <= |history|
    ensures RegisteredBy(history + [op], n, id) <==> RegisteredBy(history, n, id)
  {
    var longer := history + [op];
    assert forall i :: 0 <= i < n ==> longer[i] == history[i];
    assert forall i :: 0 <= i < n ==> (RegisteredAt(longer, i, n, id) <==> RegisteredAt(history, i, n, id));
  }

  lemma RegisteredStep(history: seq<Op>, op: Op, id: string)
    ensures RegisteredBy(history + [op], |history| + 1, id) <==>
      IsRegister(op, id) || (RegisteredBy(history, |history|, id) && !Drops(op, id))
  {
    var longer, n := history + [op], |history|;
    assert longer[n] == op && forall i :: 0 <= i < n ==> longer[i] == history[i];
    assert RegisteredAt(longer, n, n + 1, id) <==> IsRegister(op, id);
    forall i | 0 <= i < n
      ensures RegisteredAt(longer, i, n + 1, id) <==> RegisteredAt(history, i, n, id) && !Drops(op, id)
    {
      assert RegisteredAt(longer, i, n + 1, id) ==> !Drops(longer[n], id);
    }
    if RegisteredBy(history, n, id) && !Drops(op, id) {
      var i :| 0 <= i < n && RegisteredAt(history, i, n, id);
      assert RegisteredAt(longer, i, n + 1, id);
    }
    if RegisteredBy(longer, n + 1, id) {
      var i :| 0 <= i < n + 1 && RegisteredAt(longer, i, n + 1, id);
      assert i < n ==> RegisteredAt(history, i, n, id);
    }
  }

  lemma GlobalStep(history: seq<Op>, op: Op, id: string)
    ensures GloballyOn(history + [op], id) <==>
      || (op == ActivateGlobally(id) && RegisteredBy(history, |history|, id))
      || (GloballyOn(history, id) && !EndsGlobal(op, id))
  {
    var longer, n := history + [op], |history|;
    assert longer[n] == op && forall i :: 0 <= i < n ==> longer[i] == history[i];
    RegisteredPrefix(history, op, n, id);
    assert GlobalAt(longer, n, id) <==> op == ActivateGlobally(id) && RegisteredBy(history, n, id);
    forall i | 0 <= i < n
      ensures GlobalAt(longer, i, id) <==> GlobalAt(history, i, id) && !EndsGlobal(op, id)
    {
      RegisteredPrefix(history, op, i, id);
    }
  }

  lemma TargetStep(history: seq<Op>, op: Op, id: string, target: string)
    ensures TargetOn(history + [op], id, target) <==>
      || (op == Activate(id, target) && RegisteredBy(history, |history|, id))
      || (TargetOn(history, id, target) && !EndsTarget(op, id, target))
  {
    var longer, n := history + [op], |history|;
    assert longer[n] == op && forall i :: 0 <= i < n ==> longer[i] == history[i];
    RegisteredPrefix(history, op, n, id);
    assert TargetAt(longer, n, id, target) <==> op == Activate(id, target) && RegisteredBy(history, n, id);
    forall i | 0 <= i < n
      ensures TargetAt(longer, i, id, target) <==> TargetAt(history, i, id, target) && !EndsTarget(op, id, target)
    {
      RegisteredPrefix(history, op, i, id);
    }
  }

  lemma {:induction false} WithoutKeeps(s: seq<string>, x: string)
    requires NoDuplicates(s)
    ensures NoDuplicates(Without(s, x))
  {
    if s != [] {
      WithoutKeeps(s[1..], x);
      assert s[0] !in s[1..];
    }
  }

  /** An entry that is active anywhere is enabled, and no target is listed twice. */
  predicate Sound(entry: FaultEntry) {
    && NoDuplicates(entry.activeTargets)
    && (entry.globallyActive || entry.activeTargets != [] ==> entry.enabled)
  }

  lemma {:induction false} RegisteredByHistory(history: seq<Op>, id: string)
    ensures id in After(history) <==> RegisteredBy(history, |history|, id)
  {
    if history != [] {
      var front, op := history[..|history| - 1], history[|history| - 1];
      assert history == front + [op];
      RegisteredByHistory(front, id);
      RegisteredStep(front, op, id);
    }
  }

  lemma {:induction false} GlobalByHistory(history: seq<Op>, id: string)
    ensures GloballyOn(history, id) <==> id in After(history) && After(history)[id].globallyActive
  {
    if history != [] {
      var front, op := history[..|history| - 1], history[|history| - 1];
      assert history == front + [op];
      GlobalByHistory(front, id);
      RegisteredByHistory(front, id);
      GlobalStep(front, op, id);
    }
  }

  lemma {:induction false} TargetByHistory(history: seq<Op>, id: string, target: string)
    ensures TargetOn(history, id, target) <==> id in After(history) && target in After(history)[id].activeTargets
  {
    if history != [] {
      var front, op := history[..|history| - 1], history[|history| - 1];
      assert history == front + [op];
      TargetByHistory(front, id, target);
      RegisteredByHistory(front, id);
      TargetStep(front, op, id, target);
    }
  }

  lemma {:induction false} EntriesStaySound(history: seq<Op>, id: string)
    ensures id in After(history) ==> Sound(After(history)[id])
  {
    if history != [] {
      var front, op := history[..|history| - 1], history[|history| - 1];
      EntriesStaySound(front, id);
      var faults := After(front);
      if op.Deactivate? && op.id == id && id in faults {
        WithoutKeeps(faults[id].activeTargets, op.target);
      }
    }
  }

  lemma AnyMatchesIs(patterns: seq<string>, device: string)
    ensures AnyMatches(patterns, device) <==> exists target :: target in patterns && Matches(target, device)
  {
    if AnyMatches(patterns, device) {
      var i :| 0 <= i < |patterns| && Matches(patterns[i], device);
      assert patterns[i] in patterns;
    }
  }

  /** A fault is active for a device exactly when the history makes it so, globally or by a matching target. */
  lemma ActiveByHistory(history: seq<Op>, id: string, device: string)
    ensures (id in After(history) && After(history)[id].IsActiveFor(device)) <==>
      GloballyOn(history, id) || exists target :: TargetOn(history, id, target) && Matches(target, device)
  {
    var faults := After(history);
    GlobalByHistory(history, id);
    forall target
      ensures TargetOn(history, id, target) <==> id in faults && target in faults[id].activeTargets
    {
      TargetByHistory(history, id, target);
    }
    if id in faults {
      AnyMatchesIs(faults[id].activeTargets, device);
    }
  }

  /** A registry target is a glob pattern with or without a star. */
  lemma MatchesIsGlob(pattern: string, device: string)
    ensures Matches(pattern, device) <==> GlobMatch(pattern, device)
  {
    Branches(pattern);
  }

  /** A target has wildcard semantics on every device exactly when it has no star in the interior. */
  lemma MatchesIsWildIff(pattern: string)
    ensures (forall device :: Matches(pattern, device) <==> Wild(pattern, device)) <==> InnerStarFree(pattern)
  {
    forall device
      ensures Matches(pattern, device) <==> GlobMatch(pattern, device)
    {
      MatchesIsGlob(pattern, device);
    }
    GlobIsWildIff(pattern);
    if forall device :: Matches(pattern, device) <==> Wild(pattern, device) {
      forall device
        ensures GlobMatch(pattern, device) <==> Wild(pattern, device)
      {
        assert Matches(pattern, device) <==> Wild(pattern, device);
      }
    }
  }

  predicate InnerStarsNever(history: seq<Op>) {
    forall i :: 0 <= i < |history| && history[i].Activate? ==> InnerStarFree(history[i].target)
  }

  /** With stars only at the ends of targets, activity is wildcard matching over the history. */
  lemma ActiveByWildcards(history: seq<Op>, id: string, device: string)
    requires InnerStarsNever(history)
    ensures (id in After(history) && After(history)[id].IsActiveFor(device)) <==>
      GloballyOn(history, id) || exists target :: TargetOn(history, id, target) && Wild(target, device)
  {
    ActiveByHistory(history, id, device);
    forall target | TargetOn(history, id, target)
      ensures Matches(target, device) <==> Wild(target, device)
    {
      var i :| 0 <= i < |history| && TargetAt(history, i, id, target);
      assert history[i].Activate? && history[i].target == target;
      MatchesIsWildIff(target);
    }
  }

  // ---------------------------------------------------------------------------
  // Replies and the enabled flag
  // ---------------------------------------------------------------------------

  /** Registering is refused exactly for a fault that is there, everything else exactly for one that is not. */
  lemma RepliesByHistory(history: seq<Op>, op: Op)
    ensures var there := op.ResetAll? || op.Clear? || RegisteredBy(history, |history|, op.id);
      ReplyTo(After(history), op) ==
      if op.Register? then (if there then FaultAlreadyActive(op.id) else Ok)
      else if there then Ok else FaultNotFound(op.id)
  {
    if !op.ResetAll? && !op.Clear? {
      RegisteredByHistory(history, op.id);
    }
  }

  /** The operation switches the registered fault on, or brings it in switched on. */
  predicate Enables(history: seq<Op>, i: nat, id: string)
    requires i < |history|
  {
    match history[i]
    case Register(x, enabled) => x == id && enabled && !RegisteredBy(history, i, id)
    case Activate(x, _) => x == id && RegisteredBy(history, i, id)
    case ActivateGlobally(x) => x == id && RegisteredBy(history, i, id)
    case _ => false
  }

  predicate Disables(op: Op, id: string) {
    Drops(op, id) || op == DeactivateGlobally(id)
  }

  predicate EnabledAt(history: seq<Op>, i: nat, id: string)
    requires i < |history|
  {
    Enables(history, i, id) && forall j :: i < j < |history| ==> !Disables(history[j], id)
  }

  predicate EnabledOn(history: seq<Op>, id: string) {
    exists i :: 0 <= i < |history| && EnabledAt(history, i, id)
  }

  lemma EnabledStep(history: seq<Op>, op: Op, id: string)
    ensures EnabledOn(history + [op], id) <==>
      (EnabledOn(history, id) && !Disables(op, id)) || Enables(history + [op], |history|, id)
  {
    var longer, n := history + [op], |history|;
    assert longer[n] == op && forall i :: 0 <= i < n ==> longer[i] == history[i];
    forall i | 0 <= i < n
      ensures EnabledAt(longer, i, id) <==> EnabledAt(history, i, id) && !Disables(op, id)
    {
      RegisteredPrefix(history, op, i, id);
    }
    if Enables(longer, n, id) {
      assert EnabledAt(longer, n, id);
    }
    if EnabledOn(history, id) && !Disables(op, id) {
      var i :| 0 <= i < n && EnabledAt(history, i, id);
      assert EnabledAt(longer, i, id);
    }
  }

  /** A fault is enabled if and only if something switched it on and nothing switched it off since; resets leave it. */
  lemma {:induction false} EnabledByHistory(history: seq<Op>, id: string)
    ensures EnabledOn(history, id) <==> id in After(history) && After(history)[id].enabled
  {
    if history != [] {
      var front, op := history[..|history| - 1], history[|history| - 1];
      assert history == front + [op];
      EnabledByHistory(front, id);
      RegisteredByHistory(front, id);
      RegisteredPrefix(front, op, |front|, id);
      EnabledStep(front, op, id);
    }
  }

  /** Right after a reset no fault is active for any device. */
  lemma ResetSilences(faults: Faults, id: string, device: string)
    ensures var after := Apply(faults, ResetAll); after.Keys == faults.Keys && (id in after ==> !after[id].IsActiveFor(device))
  {
  }
}
