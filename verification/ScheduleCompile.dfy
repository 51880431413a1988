/**
  From a schedule's configuration to the schedule that runs: `add_entry`
  (crates/mabi-chaos/src/scheduler.rs) and `compile_schedule`
  (crates/mabi-chaos/src/runtime.rs).
 */
module ScheduleCompile {
  import opened Registry
  import opened Scheduler
  import ScheduleRuns
  import opened ScheduleCursor
  import opened ScheduleDrive
  import opened ScheduleRegistry
  import opened ScheduleShared
  import opened Wrappers

  // ---------------------------------------------------------------------------
  // Adding entries
  // ---------------------------------------------------------------------------

  /** Behind every entry that does not start later. */
  function InsertByStart(entries: seq<ChaosEntry>, entry: ChaosEntry): seq<ChaosEntry> {
    if entries == [] || entries[|entries| - 1].startSecs <= entry.startSecs then entries + [entry]
    else InsertByStart(entries[..|entries| - 1], entry) + [entries[|entries| - 1]]
  }

  /** The stable order of the entries by start. */
  function StableSort(entries: seq<ChaosEntry>): seq<ChaosEntry> {
    if entries == [] then []
    else InsertByStart(StableSort(entries[..|entries| - 1]), entries[|entries| - 1])
  }

  function WithStart(entries: seq<ChaosEntry>, start: real): seq<ChaosEntry> {
    if entries == [] then []
    else
      var last := entries[|entries| - 1];
      var front := WithStart(entries[..|entries| - 1], start);
      if last.startSecs == start then front + [last] else front
  }

  lemma PutBeforeLast(entries: seq<ChaosEntry>, entry: ChaosEntry, k: nat)
    requires k < |entries|
    ensures var front, last := entries[..|entries| - 1], entries[|entries| - 1];
      front[..k] + [entry] + front[k..] + [last] == entries[..k] + [entry] + entries[k..]
  {
  }

  lemma {:induction false} InsertPosition(entries: seq<ChaosEntry>, entry: ChaosEntry) returns (k: nat)
    ensures k <= |entries| && InsertByStart(entries, entry) == entries[..k] + [entry] + entries[k..]
    ensures k > 0 ==> entries[k - 1].startSecs <= entry.startSecs
    ensures forall i :: k <= i < |entries| ==> entry.startSecs < entries[i].startSecs
  {
    var n := |entries|;
    if entries == [] || entries[n - 1].startSecs <= entry.startSecs {
      k := n;
      assert entries[..n] + [entry] + entries[n..] == entries + [entry];
    } else {
      var front := entries[..n - 1];
      k := InsertPosition(front, entry);
      PutBeforeLast(entries, entry, k);
    }
  }

  /** `r` is `entries` with `entry` put in at `k`. */
  predicate Placed(entries: seq<ChaosEntry>, entry: ChaosEntry, k: nat, r: seq<ChaosEntry>) {
    k <= |entries| && r == entries[..k] + [entry] + entries[k..]
  }

  lemma PlacedSorted(entries: seq<ChaosEntry>, entry: ChaosEntry, k: nat, r: seq<ChaosEntry>)
    requires Placed(entries, entry, k, r) && SortedByStart(entries)
    requires k > 0 ==> entries[k - 1].startSecs <= entry.startSecs
    requires forall i :: k <= i < |entries| ==> entry.startSecs < entries[i].startSecs
    ensures SortedByStart(r)
  {
    assert forall i :: 0 <= i < |r| ==> r[i] == if i < k then entries[i] else if i == k then entry else entries[i - 1];
  }

  lemma InsertKeepsSorted(entries: seq<ChaosEntry>, entry: ChaosEntry)
    requires SortedByStart(entries)
    ensures SortedByStart(InsertByStart(entries, entry))
  {
    var k := InsertPosition(entries, entry);
    PlacedSorted(entries, entry, k, InsertByStart(entries, entry));
  }

  lemma WithStartAppend(entries: seq<ChaosEntry>, entry: ChaosEntry, start: real)
    ensures WithStart(entries + [entry], start)
         == if entry.startSecs == start then WithStart(entries, start) + [entry] else WithStart(entries, start)
  {
    assert (entries + [entry])[..|entries|] == entries;
  }

  lemma {:induction false} InsertIsStable(entries: seq<ChaosEntry>, entry: ChaosEntry, start: real)
    ensures WithStart(InsertByStart(entries, entry), start)
         == if entry.startSecs == start then WithStart(entries, start) + [entry] else WithStart(entries, start)
  {
    if entries == [] || entries[|entries| - 1].startSecs <= entry.startSecs {
      WithStartAppend(entries, entry, start);
    } else {
      var front, last := entries[..|entries| - 1], entries[|entries| - 1];
      InsertIsStable(front, entry, start);
      WithStartAppend(InsertByStart(front, entry), last, start);
      WithStartAppend(front, last, start);
      assert entries == front + [last] && entry.startSecs != last.startSecs;
    }
  }

  /** Sorted by start, and among equal starts in the order they came: nothing lost, nothing added. */
  lemma {:induction false} StableSortSorts(entries: seq<ChaosEntry>, start: real)
    ensures SortedByStart(StableSort(entries))
    ensures WithStart(StableSort(entries), start) == WithStart(entries, start)
  {
    if entries != [] {
      var front, last := entries[..|entries| - 1], entries[|entries| - 1];
      StableSortSorts(front, start);
      InsertKeepsSorted(StableSort(front), last);
      InsertIsStable(StableSort(front), last, start);
    }
  }

  lemma SortedFront(entries: seq<ChaosEntry>)
    requires entries != [] && SortedByStart(entries)
    ensures var front, last := entries[..|entries| - 1], entries[|entries| - 1];
      SortedByStart(front) && InsertByStart(front, last) == front + [last] == entries
  {
    var n := |entries| - 1;
    assert n > 0 ==> entries[..n][n - 1] == entries[n - 1];
  }

  lemma {:induction false} SortedStays(entries: seq<ChaosEntry>)
    requires SortedByStart(entries)
    ensures StableSort(entries) == entries
  {
    if entries != [] {
      SortedFront(entries);
      SortedStays(entries[..|entries| - 1]);
    }
  }

  /** `add_entry`: push, then sort; on a sorted list that is one insertion. */
  method AddEntry(entries: seq<ChaosEntry>, entry: ChaosEntry) returns (sorted: seq<ChaosEntry>)
    ensures sorted == StableSort(entries + [entry])
    ensures SortedByStart(sorted)
    ensures SortedByStart(entries) ==> sorted == InsertByStart(entries, entry)
  {
    var pushed := entries + [entry];
    sorted := [];
    for i := 0 to |pushed|
      invariant sorted == StableSort(pushed[..i])
    {
      assert pushed[..i + 1][..i] == pushed[..i];
      sorted := InsertByStart(sorted, pushed[i]);
    }
    assert pushed[..|pushed|] == pushed;
    StableSortSorts(pushed, 0.0);
    if SortedByStart(entries) {
      SortedStays(entries);
      assert pushed[..|entries|] == entries;
    }
  }

  // ---------------------------------------------------------------------------
  // Fault ids
  // ---------------------------------------------------------------------------

  function Decimal(n: nat): (s: string)
    ensures s != ""
  {
    if n < 10 then [(0x30 + n) as char] else Decimal(n / 10) + [(0x30 + n % 10) as char]
  }

  lemma {:induction false} DecimalInjective(a: nat, b: nat)
    requires Decimal(a) == Decimal(b)
    ensures a == b
  {
    var s, t := Decimal(a), Decimal(b);
    assert s[|s| - 1] == (0x30 + a % 10) as char && t[|t| - 1] == (0x30 + b % 10) as char;
    assert a % 10 == b % 10;
    if a >= 10 && b >= 10 {
      assert s[..|s| - 1] == Decimal(a / 10) && t[..|t| - 1] == Decimal(b / 10);
      DecimalInjective(a / 10, b / 10);
    }
  }

  /** The id that an inline fault is registered under. */
  function InlineId(scheduleIdx: nat, name: string, entryIdx: nat): string {
    "schedule:" + Decimal(scheduleIdx) + ":" + name + ":" + Decimal(entryIdx)
  }

  lemma InlineIdForm()
    ensures InlineId(0, "night", 12) == "schedule:0:night:12"
  {
    assert Decimal(12) == "12" && Decimal(0) == "0";
  }

  lemma {:induction false} DecimalDigits(n: nat)
    ensures forall c :: c in Decimal(n) ==> '0' <= c <= '9'
  {
    if n >= 10 {
      DecimalDigits(n / 10);
    }
  }

  predicate FirstColon(s: string, n: nat) {
    n < |s| && s[n] == ':' && forall k :: 0 <= k < n ==> s[k] != ':'
  }

  predicate LastColon(s: string, n: nat) {
    n < |s| && s[n] == ':' && forall k :: n < k < |s| ==> s[k] != ':'
  }

  lemma ColonUnique(s: string, m: nat, n: nat)
    ensures FirstColon(s, m) && FirstColon(s, n) ==> m == n
    ensures LastColon(s, m) && LastColon(s, n) ==> m == n
  {
  }

  lemma ColonAt(head: string, tail: string)
    ensures var s := head + ":" + tail;
      && s[..|head|] == head && s[|head| + 1..] == tail
      && (':' !in head ==> FirstColon(s, |head|))
      && (':' !in tail ==> LastColon(s, |head|))
  {
  }

  /** A colon that one of the parts does not hold tells the parts apart. */
  lemma SplitAtColon(a: string, x: string, b: string, y: string)
    requires a + ":" + x == b + ":" + y
    requires (':' !in a && ':' !in b) || (':' !in x && ':' !in y)
    ensures a == b && x == y
  {
    ColonAt(a, x);
    ColonAt(b, y);
    ColonUnique(a + ":" + x, |a|, |b|);
  }

  /** Inline faults of different entries, or of different schedules, have different ids, whatever the names. */
  lemma {:induction false} InlineIdInjective(s: nat, name: string, i: nat, t: nat, other: string, j: nat)
    requires InlineId(s, name, i) == InlineId(t, other, j)
    ensures s == t && name == other && i == j
  {
    var a, b := Decimal(s), Decimal(t);
    var x, y := name + ":" + Decimal(i), other + ":" + Decimal(j);
    DecimalDigits(s);
    DecimalDigits(t);
    DecimalDigits(i);
    DecimalDigits(j);
    assert InlineId(s, name, i)[9..] == a + ":" + x && InlineId(t, other, j)[9..] == b + ":" + y;
    SplitAtColon(a, x, b, y);
    SplitAtColon(name, Decimal(i), other, Decimal(j));
    DecimalInjective(s, t);
    DecimalInjective(i, j);
  }

  // ---------------------------------------------------------------------------
  // Compiling
  // ---------------------------------------------------------------------------

  datatype FaultSource = Reference(id: string) | Inline

  datatype EntryConfig = EntryConfig(fault: FaultSource, startSecs: real, durationSecs: real, targets: seq<string>)

  datatype ScheduleConfig = ScheduleConfig(
    name: string, loopSchedule: bool, totalDurationSecs: Option<real>, entries: seq<EntryConfig>)

  function IdOf(scheduleIdx: nat, config: ScheduleConfig, i: nat): string
    requires i < |config.entries|
  {
    match config.entries[i].fault
    case Reference(id) => id
    case Inline => InlineId(scheduleIdx, config.name, i)
  }

  /** An entry as the schedule holds it, with the id of its fault in the description. */
  function EntryFor(e: EntryConfig, id: string): ChaosEntry {
    ChaosEntry(e.startSecs, e.durationSecs, e.targets, FAULT_PREFIX + id)
  }

  /** Entries with their fault ids, added one after the other. */
  function AddAll(entries: seq<EntryConfig>, ids: seq<string>): seq<ChaosEntry>
    requires |ids| == |entries|
  {
    if entries == [] then []
    else
      var n := |entries| - 1;
      InsertByStart(AddAll(entries[..n], ids[..n]), EntryFor(entries[n], ids[n]))
  }

  function IdsOf(scheduleIdx: nat, config: ScheduleConfig, n: nat): (ids: seq<string>)
    requires n <= |config.entries|
    ensures |ids| == n
  {
    if n == 0 then [] else IdsOf(scheduleIdx, config, n - 1) + [IdOf(scheduleIdx, config, n - 1)]
  }

  lemma {:induction false} IdsAre(scheduleIdx: nat, config: ScheduleConfig, n: nat, i: nat)
    requires i < n <= |config.entries|
    ensures IdsOf(scheduleIdx, config, n)[i] == IdOf(scheduleIdx, config, i)
  {
    if i < n - 1 {
      IdsAre(scheduleIdx, config, n - 1, i);
    }
  }

  /** The first `n` entries as the schedule holds them. */
  function CompileEntries(scheduleIdx: nat, config: ScheduleConfig, n: nat): seq<ChaosEntry>
    requires n <= |config.entries|
  {
    AddAll(config.entries[..n], IdsOf(scheduleIdx, config, n))
  }

  lemma {:induction false} CompileNext(scheduleIdx: nat, config: ScheduleConfig, n: nat)
    requires n < |config.entries|
    ensures CompileEntries(scheduleIdx, config, n + 1)
         == InsertByStart(CompileEntries(scheduleIdx, config, n), EntryFor(config.entries[n], IdOf(scheduleIdx, config, n)))
  {
    var ids := IdsOf(scheduleIdx, config, n + 1);
    assert config.entries[..n + 1][..n] == config.entries[..n] && ids[..n] == IdsOf(scheduleIdx, config, n);
  }

  /** Inline faults of the first `n` entries are registered unless their id is taken. */
  function RegisterInline(faults: Faults, scheduleIdx: nat, config: ScheduleConfig, n: nat): Faults
    requires n <= |config.entries|
  {
    if n == 0 then faults
    else
      var before := RegisterInline(faults, scheduleIdx, config, n - 1);
      if config.entries[n - 1].fault.Inline? then Apply(before, Register(IdOf(scheduleIdx, config, n - 1), true)) else before
  }

  datatype Compiled = Compiled(schedule: ChaosSchedule) | UnknownFault(id: string)

  predicate Unknown(config: ScheduleConfig, known: set<string>, i: nat)
    requires i < |config.entries|
  {
    config.entries[i].fault.Reference? && config.entries[i].fault.id !in known
  }

  /** The first entry from `from` on that refers to an unknown fault, or the number of entries. */
  function FirstUnknown(config: ScheduleConfig, known: set<string>, from: nat): (k: nat)
    requires from <= |config.entries|
    ensures from <= k <= |config.entries|
    ensures forall i :: from <= i < k ==> !Unknown(config, known, i)
    ensures k < |config.entries| ==> Unknown(config, known, k)
    decreases |config.entries| - from
  {
    if from < |config.entries| && !Unknown(config, known, from) then FirstUnknown(config, known, from + 1) else from
  }

  /** The id of an entry's fault, registering an inline fault on the way; none for an unknown reference. */
  method ResolveFault(registry: FaultRegistry, known: set<string>, scheduleIdx: nat, config: ScheduleConfig, i: nat)
    returns (id: Option<string>)
    requires i < |config.entries|
    modifies registry
    ensures id.None? <==> Unknown(config, known, i)
    ensures id.Some? ==> id.value == IdOf(scheduleIdx, config, i)
    ensures registry.faults ==
      if config.entries[i].fault.Inline? then Apply(old(registry.faults), Register(IdOf(scheduleIdx, config, i), true))
      else old(registry.faults)
  {
    match config.entries[i].fault {
      case Reference(fault) =>
        return if fault in known then Some(fault) else None;
      case Inline =>
        var inline := InlineId(scheduleIdx, config.name, i);
        if inline !in registry.faults {
          var _ := registry.Register(inline, true);
        }
        return Some(inline);
    }
  }

  /** One turn of the loop: resolve the fault of an entry and add the entry, or refuse it. */
  method CompileOne(registry: FaultRegistry, known: set<string>, scheduleIdx: nat, config: ScheduleConfig, i: nat,
                    entries: seq<ChaosEntry>, ghost faults: Faults) returns (added: Option<seq<ChaosEntry>>)
    requires i < |config.entries| && entries == CompileEntries(scheduleIdx, config, i)
    requires registry.faults == RegisterInline(faults, scheduleIdx, config, i)
    modifies registry
    ensures added == if Unknown(config, known, i) then None else Some(CompileEntries(scheduleIdx, config, i + 1))
    ensures registry.faults == RegisterInline(faults, scheduleIdx, config, if Unknown(config, known, i) then i else i + 1)
  {
    var id := ResolveFault(registry, known, scheduleIdx, config, i);
    if id.None? {
      return None;
    }
    CompileNext(scheduleIdx, config, i);
    CompiledEntriesOwnFaults(scheduleIdx, config, i);
    var sorted := AddEntry(entries, EntryFor(config.entries[i], id.value));
    return Some(sorted);
  }

  /** The loop of `compile_schedule`: up to the first reference to an unknown fault. */
  method CompileAll(registry: FaultRegistry, known: set<string>, scheduleIdx: nat, config: ScheduleConfig)
    returns (entries: seq<ChaosEntry>, k: nat)
    modifies registry
    ensures k == FirstUnknown(config, known, 0) && entries == CompileEntries(scheduleIdx, config, k)
    ensures registry.faults == RegisterInline(old(registry.faults), scheduleIdx, config, k)
  {
    entries, k := [], 0;
    while k < |config.entries|
      invariant k <= |config.entries| && FirstUnknown(config, known, 0) == FirstUnknown(config, known, k)
      invariant entries == CompileEntries(scheduleIdx, config, k)
      invariant registry.faults == RegisterInline(old(registry.faults), scheduleIdx, config, k)
    {
      var added := CompileOne(registry, known, scheduleIdx, config, k, entries, old(registry.faults));
      if added.None? {
        break;
      }
      entries, k := added.value, k + 1;
    }
  }

  /** The inline faults before an unknown reference stay registered. */
  method CompileSchedule(registry: FaultRegistry, known: set<string>, scheduleIdx: nat, config: ScheduleConfig)
    returns (r: Compiled)
    modifies registry
    ensures var k := FirstUnknown(config, known, 0);
      && registry.faults == RegisterInline(old(registry.faults), scheduleIdx, config, k)
      && r == if k < |config.entries| then UnknownFault(config.entries[k].fault.id)
              else Compiled(ChaosSchedule(CompileEntries(scheduleIdx, config, k), config.loopSchedule, config.totalDurationSecs))
  {
    var entries, k := CompileAll(registry, known, scheduleIdx, config);
    if k < |config.entries| {
      return UnknownFault(config.entries[k].fault.id);
    }
    return Compiled(ChaosSchedule(entries, config.loopSchedule, config.totalDurationSecs));
  }

  lemma EntryForId(e: EntryConfig, id: string)
    ensures Switches(EntryFor(e, id), id)
  {
    FaultIdIs(EntryFor(e, id), id);
  }

  lemma PlacedNames(entries: seq<ChaosEntry>, entry: ChaosEntry, k: nat, r: seq<ChaosEntry>, x: string)
    requires Placed(entries, entry, k, r)
    ensures Named(r, x) <==> Named(entries, x) || Switches(entry, x)
  {
    assert r[k] == entry;
    if i :| 0 <= i < |entries| && Switches(entries[i], x) {
      assert r[if i < k then i else i + 1] == entries[i];
    }
    if i :| 0 <= i < |r| && Switches(r[i], x) {
      assert i != k ==> r[i] == entries[if i < k then i else i - 1];
    }
  }

  lemma PlacedDistinct(entries: seq<ChaosEntry>, entry: ChaosEntry, k: nat, r: seq<ChaosEntry>, id: string)
    requires Placed(entries, entry, k, r)
    requires DistinctIds(entries) && Switches(entry, id) && !Named(entries, id)
    ensures DistinctIds(r)
  {
    assert |r| == |entries| + 1 && r[k] == entry;
    assert forall i :: 0 <= i < k ==> r[i] == entries[i];
    assert forall i :: k < i < |r| ==> r[i] == entries[i - 1];
    assert forall i :: 0 <= i < |entries| ==> !Switches(entries[i], id);
  }

  /** Added entries are sorted and name exactly the given faults; different faults stay apart. */
  lemma {:induction false} AddAllNames(entries: seq<EntryConfig>, ids: seq<string>)
    requires |ids| == |entries|
    ensures SortedByStart(AddAll(entries, ids))
    ensures forall x :: Named(AddAll(entries, ids), x) <==> x in ids
    ensures NoDuplicates(ids) ==> DistinctIds(AddAll(entries, ids))
  {
    if entries != [] {
      var n := |entries| - 1;
      var before, entry := AddAll(entries[..n], ids[..n]), EntryFor(entries[n], ids[n]);
      AddAllNames(entries[..n], ids[..n]);
      AddOneNames(before, entry, ids[..n], ids[n]) by {
        EntryForId(entries[n], ids[n]);
      }
      assert ids == ids[..n] + [ids[n]];
    }
  }

  lemma AddOneNames(entries: seq<ChaosEntry>, entry: ChaosEntry, ids: seq<string>, id: string)
    requires SortedByStart(entries) && Switches(entry, id)
    requires forall x :: Named(entries, x) <==> x in ids
    ensures var r := InsertByStart(entries, entry);
      && SortedByStart(r)
      && (forall x :: Named(r, x) <==> x in ids || x == id)
      && (DistinctIds(entries) && id !in ids ==> DistinctIds(r))
  {
    var k := InsertPosition(entries, entry);
    var r := InsertByStart(entries, entry);
    InsertKeepsSorted(entries, entry);
    forall x
      ensures Named(r, x) <==> x in ids || x == id
    {
      PlacedNames(entries, entry, k, r, x);
    }
    if DistinctIds(entries) && id !in ids {
      PlacedDistinct(entries, entry, k, r, id);
    }
  }

  lemma {:induction false} InsertMembers(entries: seq<ChaosEntry>, entry: ChaosEntry, e: ChaosEntry)
    ensures e in InsertByStart(entries, entry) <==> e in entries || e == entry
  {
    if entries != [] && !(entries[|entries| - 1].startSecs <= entry.startSecs) {
      var front, last := entries[..|entries| - 1], entries[|entries| - 1];
      InsertMembers(front, entry, e);
      assert entries == front + [last];
    }
  }

  lemma {:induction false} AddAllHas(entries: seq<EntryConfig>, ids: seq<string>, e: ChaosEntry)
    requires |ids| == |entries|
    ensures e in AddAll(entries, ids) <==> exists i :: 0 <= i < |entries| && e == EntryFor(entries[i], ids[i])
  {
    if entries != [] {
      var n := |entries| - 1;
      AddAllHas(entries[..n], ids[..n], e);
      InsertMembers(AddAll(entries[..n], ids[..n]), EntryFor(entries[n], ids[n]), e);
    }
  }

  /** No reference names the fault of another entry. */
  predicate ReferencesApart(scheduleIdx: nat, config: ScheduleConfig) {
    forall i, j :: 0 <= i < |config.entries| && 0 <= j < |config.entries| && i != j && config.entries[i].fault.Reference?
      ==> IdOf(scheduleIdx, config, i) != IdOf(scheduleIdx, config, j)
  }

  lemma {:induction false} IdsApart(scheduleIdx: nat, config: ScheduleConfig, n: nat)
    requires ReferencesApart(scheduleIdx, config) && n <= |config.entries|
    ensures NoDuplicates(IdsOf(scheduleIdx, config, n))
  {
    var ids := IdsOf(scheduleIdx, config, n);
    forall i, j | 0 <= i < j < n
      ensures ids[i] != ids[j]
    {
      IdsAre(scheduleIdx, config, n, i);
      IdsAre(scheduleIdx, config, n, j);
      if config.entries[i].fault.Inline? && config.entries[j].fault.Inline? && ids[i] == ids[j] {
        InlineIdInjective(scheduleIdx, config.name, i, scheduleIdx, config.name, j);
      }
    }
  }

  /** Compiled schedules are sorted; entries own their faults, the inline ones always, references if they stay apart. */
  lemma CompiledEntriesOwnFaults(scheduleIdx: nat, config: ScheduleConfig, n: nat)
    requires n <= |config.entries|
    ensures SortedByStart(CompileEntries(scheduleIdx, config, n))
    ensures ReferencesApart(scheduleIdx, config) ==> DistinctIds(CompileEntries(scheduleIdx, config, n))
  {
    AddAllNames(config.entries[..n], IdsOf(scheduleIdx, config, n));
    if ReferencesApart(scheduleIdx, config) {
      IdsApart(scheduleIdx, config, n);
    }
  }

  // ---------------------------------------------------------------------------
  // What the configuration says is what the schedule holds
  // ---------------------------------------------------------------------------

  /** When, for how long, on what, and which fault. */
  datatype Line = Line(start: real, duration: real, targets: seq<string>, fault: Option<string>)

  function LineOf(e: ChaosEntry): Line {
    Line(e.startSecs, e.durationSecs, e.targets, FaultId(e))
  }

  function Lines(entries: seq<ChaosEntry>): seq<Line> {
    if entries == [] then [] else Lines(entries[..|entries| - 1]) + [LineOf(entries[|entries| - 1])]
  }

  function ConfigLines(scheduleIdx: nat, config: ScheduleConfig, n: nat): seq<Line>
    requires n <= |config.entries|
  {
    if n == 0 then []
    else
      var c := config.entries[n - 1];
      var id := if c.fault.Reference? then c.fault.id else InlineId(scheduleIdx, config.name, n - 1);
      ConfigLines(scheduleIdx, config, n - 1) + [Line(c.startSecs, c.durationSecs, c.targets, Some(id))]
  }

  lemma LinesSnoc(entries: seq<ChaosEntry>, e: ChaosEntry)
    ensures Lines(entries + [e]) == Lines(entries) + [LineOf(e)]
  {
    assert (entries + [e])[..|entries|] == entries;
  }

  ghost predicate OneMoreLine(more: seq<Line>, fewer: seq<Line>, line: Line) {
    multiset(more) == multiset(fewer) + multiset{line}
  }

  lemma OneMoreSnoc(more: seq<Line>, fewer: seq<Line>, line: Line, last: Line)
    requires OneMoreLine(more, fewer, line)
    ensures OneMoreLine(more + [last], fewer + [last], line)
  {
  }

  lemma OneMoreAgrees(more: seq<Line>, fewer: seq<Line>, same: seq<Line>, line: Line)
    requires OneMoreLine(more, fewer, line) && multiset(fewer) == multiset(same)
    ensures multiset(more) == multiset(same + [line])
  {
  }

  lemma {:induction false} InsertLines(entries: seq<ChaosEntry>, e: ChaosEntry)
    ensures OneMoreLine(Lines(InsertByStart(entries, e)), Lines(entries), LineOf(e))
  {
    if entries == [] || entries[|entries| - 1].startSecs <= e.startSecs {
      LinesSnoc(entries, e);
    } else {
      var front, last := entries[..|entries| - 1], entries[|entries| - 1];
      InsertLines(front, e);
      LinesSnoc(InsertByStart(front, e), last);
      OneMoreSnoc(Lines(InsertByStart(front, e)), Lines(front), LineOf(e), LineOf(last));
    }
  }

  lemma LinesAgree(entries: seq<ChaosEntry>, e: ChaosEntry, lines: seq<Line>)
    requires multiset(Lines(entries)) == multiset(lines)
    ensures multiset(Lines(InsertByStart(entries, e))) == multiset(lines + [LineOf(e)])
  {
    InsertLines(entries, e);
    OneMoreAgrees(Lines(InsertByStart(entries, e)), Lines(entries), lines, LineOf(e));
  }

  lemma LineOfEntry(c: EntryConfig, id: string)
    ensures LineOf(EntryFor(c, id)) == Line(c.startSecs, c.durationSecs, c.targets, Some(id))
  {
    FaultIdIs(EntryFor(c, id), id);
  }

  lemma ConfigLinesNext(scheduleIdx: nat, config: ScheduleConfig, n: nat)
    requires n < |config.entries|
    ensures ConfigLines(scheduleIdx, config, n + 1)
         == ConfigLines(scheduleIdx, config, n) + [LineOf(EntryFor(config.entries[n], IdOf(scheduleIdx, config, n)))]
  {
    LineOfEntry(config.entries[n], IdOf(scheduleIdx, config, n));
  }

  /** Compiling loses no entry, adds none, and changes no start, duration, target or fault. */
  lemma {:induction false} CompiledLines(scheduleIdx: nat, config: ScheduleConfig, n: nat)
    requires n <= |config.entries|
    ensures multiset(Lines(CompileEntries(scheduleIdx, config, n))) == multiset(ConfigLines(scheduleIdx, config, n))
  {
    if n == 0 {
      assert CompileEntries(scheduleIdx, config, 0) == [];
    } else {
      CompiledLines(scheduleIdx, config, n - 1);
      CompileNext(scheduleIdx, config, n - 1);
      ConfigLinesNext(scheduleIdx, config, n - 1);
      LinesAgree(CompileEntries(scheduleIdx, config, n - 1), EntryFor(config.entries[n - 1], IdOf(scheduleIdx, config, n - 1)),
                 ConfigLines(scheduleIdx, config, n - 1));
    }
  }

  /** The id of an inline fault among the first `n` entries. */
  predicate InlineBefore(scheduleIdx: nat, config: ScheduleConfig, n: nat, id: string)
    requires n <= |config.entries|
  {
    exists i :: 0 <= i < n && config.entries[i].fault.Inline? && id == InlineId(scheduleIdx, config.name, i)
  }

  lemma InlineBeforeNext(scheduleIdx: nat, config: ScheduleConfig, n: nat, id: string)
    requires 0 < n <= |config.entries|
    ensures InlineBefore(scheduleIdx, config, n, id) <==>
      || InlineBefore(scheduleIdx, config, n - 1, id)
      || (config.entries[n - 1].fault.Inline? && id == InlineId(scheduleIdx, config.name, n - 1))
  {
  }

  /** Registering adds the inline faults, off, and leaves what was there. */
  lemma {:induction false} RegisteredOff(faults: Faults, scheduleIdx: nat, config: ScheduleConfig, n: nat)
    requires n <= |config.entries|
    ensures var after := RegisterInline(faults, scheduleIdx, config, n);
      && (forall id :: id in after <==> id in faults || InlineBefore(scheduleIdx, config, n, id))
      && (forall id :: id in faults ==> after[id] == faults[id])
      && (forall id :: id in after && id !in faults ==> SwitchedOff(after[id]))
  {
    if n > 0 {
      RegisteredOff(faults, scheduleIdx, config, n - 1);
      forall id
        ensures InlineBefore(scheduleIdx, config, n, id) <==>
          || InlineBefore(scheduleIdx, config, n - 1, id)
          || (config.entries[n - 1].fault.Inline? && id == IdOf(scheduleIdx, config, n - 1))
      {
        InlineBeforeNext(scheduleIdx, config, n, id);
      }
    }
  }

  lemma {:induction false} CompiledDurations(scheduleIdx: nat, config: ScheduleConfig)
    requires forall j :: 0 <= j < |config.entries| ==> config.entries[j].durationSecs >= 0.0
    ensures var entries := CompileEntries(scheduleIdx, config, |config.entries|);
      forall k :: 0 <= k < |entries| ==> entries[k].durationSecs >= 0.0
  {
    var n := |config.entries|;
    var entries := CompileEntries(scheduleIdx, config, n);
    forall k | 0 <= k < |entries|
      ensures entries[k].durationSecs >= 0.0
    {
      AddAllHas(config.entries[..n], IdsOf(scheduleIdx, config, n), entries[k]);
    }
  }

  /** What `compile_schedule` makes of a configuration without unknown references. */
  function Schedule(scheduleIdx: nat, config: ScheduleConfig): (schedule: ChaosSchedule)
    requires forall j :: 0 <= j < |config.entries| ==> config.entries[j].durationSecs >= 0.0
    ensures ScheduleRuns.ValidSchedule(schedule)
    ensures schedule.loopSchedule == config.loopSchedule && schedule.totalDurationSecs == config.totalDurationSecs
  {
    var entries := CompileEntries(scheduleIdx, config, |config.entries|);
    CompiledDurations(scheduleIdx, config);
    ChaosSchedule(entries, config.loopSchedule, config.totalDurationSecs)
  }

  lemma {:induction false} CompiledHas(scheduleIdx: nat, config: ScheduleConfig, i: nat)
    requires i < |config.entries|
    ensures EntryFor(config.entries[i], IdOf(scheduleIdx, config, i)) in CompileEntries(scheduleIdx, config, |config.entries|)
  {
    var n := |config.entries|;
    var ids := IdsOf(scheduleIdx, config, n);
    IdsAre(scheduleIdx, config, n, i);
    assert EntryFor(config.entries[..n][i], ids[i]) == EntryFor(config.entries[i], IdOf(scheduleIdx, config, i));
    AddAllHas(config.entries[..n], ids, EntryFor(config.entries[i], IdOf(scheduleIdx, config, i)));
  }

  /**
    Configuration to registry: compile a schedule that does not loop, whose
    references name no other entry's fault, and run it over any ticks; the fault
    of each entry, off to begin with, is then active for a device exactly while
    an activation of that fault is in the active list and the device is among
    the targets the configuration names, or it names none.
   */
  lemma CompiledScheduleDrivesRegistry(faults: Faults, scheduleIdx: nat, config: ScheduleConfig, at: real,
                                       readings: seq<Reading>, i: nat, device: string)
    requires ReferencesApart(scheduleIdx, config) && !config.loopSchedule && i < |config.entries|
    requires forall j :: 0 <= j < |config.entries| ==> config.entries[j].durationSecs >= 0.0
    requires config.entries[i].fault.Reference? ==> config.entries[i].fault.id in faults
    requires IdOf(scheduleIdx, config, i) in faults ==> SwitchedOff(faults[IdOf(scheduleIdx, config, i)])
    ensures var id, targets := IdOf(scheduleIdx, config, i), config.entries[i].targets;
      var registered := RegisterInline(faults, scheduleIdx, config, |config.entries|);
      var d := Drive(Schedule(scheduleIdx, config), at, registered, readings);
      && id in d.faults
      && (d.faults[id].IsActiveFor(device) <==>
            && (exists k :: 0 <= k < |d.now.active| && Switches(d.now.active[k].entry, id))
            && (targets == [] || AnyMatches(targets, device)))
  {
    var n := |config.entries|;
    var schedule, registered := Schedule(scheduleIdx, config), RegisterInline(faults, scheduleIdx, config, n);
    var id := IdOf(scheduleIdx, config, i);
    CompiledEntriesOwnFaults(scheduleIdx, config, n);
    RegisteredOff(faults, scheduleIdx, config, n);
    assert config.entries[i].fault.Inline? ==> InlineBefore(scheduleIdx, config, n, id);
    EntryForId(config.entries[i], id);
    CompiledHas(scheduleIdx, config, i);
    var k :| 0 <= k < |schedule.entries| && schedule.entries[k] == EntryFor(config.entries[i], id);
    ScheduleDrivesRegistry(schedule, at, registered, readings, k, device);
    DriveTraced(schedule, at, registered, readings);
    OnlyOwner(Drive(schedule, at, registered, readings).now, k, id);
  }
}
