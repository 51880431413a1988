# Mabinogion in Dafny

Mabinogion simulates industrial protocols (Modbus, OPC UA, BACnet, KNX) and injects faults into them. This project
models the parts of it that carry state, loops or hand-written codecs, and proves what they promise over all inputs,
all runs or all interleavings. `dafny verify dfyconfig.toml` checks the whole project.

What is modelled, file by file:

- `Cemi.dfy`, `CemiRoundTrip.dfy`, `CemiWire.dfy`, `CemiServices.dfy`, with `KnxAddress.dfy`, `Bits.dfy` and
  `Wrappers.dfy`: the cEMI frame codec of the KNX crate. Encoder and decoder are written separately in the code; here
  each is a method with the code's own loops, proved against a function, and the functions are proved to be inverses
  exactly on a stated set of frames. `CemiWire.dfy` ties both to the octets: which strings are frames, where each field
  stands, and with which error each other string is refused.
- `Scheduler.dfy`, `ScheduleRuns.dfy`, `ScheduleCursor.dfy`: the chaos scheduler as a class, and every run of it under
  any sequence of start, stop, pause, resume and tick.
- `Glob.dfy`, `Registry.dfy`: the fault registry and its target matchers, against the full history of operations.
- `ScheduleDrive.dfy`, `ScheduleRegistry.dfy`, `ScheduleShared.dfy`, `ScheduleCompile.dfy`: a schedule compiled from its
  configuration, run, and its events handled: exactly when the registry shows what the scheduler has active.
- `FaultProcess.dfy`, `ChaosEngine.dfy`: the decision over the active faults, and the engine's lifecycle.
- `ErrorTracker.dfy`, `ErrorTrackerHistory.dfy`: the send error tracker against the full history of sends.
- `TokenBucket.dfy`, `TokenBucketRace.dfy`: the rate limiter, sequentially and under every interleaving of its atomic
  steps.
- `RunningAverage.dfy`, `Latency.dfy`: the running average of tick durations and the latency percentiles.
- `ConnectionCore.dfy`, `DeviceIndex.dfy`: bitmap and list of unit ids, shard routing, and the engine's device index.

Choices that hold throughout:

- Clocks are arguments. A call that reads the clock several times takes several readings: a scheduler tick one for the
  elapsed time, one for each entry it starts and one for each activation it looks at, a recorded failure four. Seconds,
  rates and instants are reals, so floating-point rounding is not modelled; truncation, saturation, NaN from a zero
  divisor and 32- and 64-bit wrap-around are, where they decide something.
- Concurrent maps are maps whose iteration order is arbitrary. Locks are modelled only in `TokenBucketRace.dfy`.
- An entry that ends undercuts one that goes on when both switch the same fault and the first names no target, or the
  two name a common one: handling the end then takes away what the other still needs.
- Where a promise turns out not to hold of the code, the code is kept, a failing case is proved, and so is the exact
  condition: `SaturatedCounterFails` beside `CursorIsCountIff`, `SharedFaultFails` beside `ShownIff` (on a run) and
  `ShownOnEveryRunIff` (from the schedule alone), `AlarmCanMiss` beside `AlarmByHistory`, `PollCanDelay` beside
  `PollDelaysIff`, `RaceBreaksBound` beside `BoundUnderRacesIff`, `WrappedAverage` beside `NearMeanIff`,
  `FailedStopShows` beside `ListingsExactIff`.
- Where code and documentation differ, the code is followed. The KNX standard puts the hop count of control field 2 in
  bits 6 to 4 and the service in two octets; the encoder uses bits 2 to 0 and one octet. `run_schedule` looks as if it
  ends when the schedule completes, but its `break` leaves only the inner loop over the events of one tick.

## Model

| member | source | states |
|---|---|---|
| `KnxAddress.DecodeOfEncode` | crates/mabi-knx/src/address.rs:90-102 | every area.line.device address survives its 16-bit form |
| `KnxAddress.EncodeOfDecode` | crates/mabi-knx/src/address.rs:90-102 | every 16-bit value is the form of the address read from it |
| `KnxAddress.FieldBits` | crates/mabi-knx/src/address.rs:90-102 | area in the top four bits, line in the next four, device in the low octet |
| `Cemi.EncodeFrame` | crates/mabi-knx/src/cemi.rs:708-782 | appending octet by octet yields the wire form `Encode`, whose inverse is the subject of `CemiRoundTrip` |
| `Cemi.PutInfos` | crates/mabi-knx/src/cemi.rs:714-723 | the length sum and the loop over additional information emit one length octet and the items in order |
| `Cemi.PutNpdu` | crates/mabi-knx/src/cemi.rs:760-779 | the three NPDU forms: service alone, six payload bits embedded, service and payload octets |
| `Cemi.TakeInfo` | crates/mabi-knx/src/cemi.rs:391-407 | taking one item shrinks the slice by at least two octets, reads inside it, and refuses what does not fit |
| `Cemi.TakeInfos` | crates/mabi-knx/src/cemi.rs:796-809 | the `while` loop over a shrinking slice ends and parses the whole list or reports the first misfit |
| `Cemi.TakeNpdu` | crates/mabi-knx/src/cemi.rs:876-910 | service and payload of the one-octet and the two-octet layout |
| `Cemi.DecodeFrame` | crates/mabi-knx/src/cemi.rs:785-926 | advancing a slice yields `Decode`, with every error and the one unguarded read |
| `CemiRoundTrip.InfosRoundTripIff` | crates/mabi-knx/src/cemi.rs:379-407 | a list of additional information comes back from the wire if and only if each item's length fits its octet |
| `CemiRoundTrip.InfosEncodeOfDecode` | crates/mabi-knx/src/cemi.rs:391-407 | every accepted octet string re-encodes to itself |
| `CemiRoundTrip.NpduRoundTripIff` | crates/mabi-knx/src/cemi.rs:760-910 | exactly which services and payloads come back unchanged, over all 17 services |
| `CemiRoundTrip.FrameRoundTripIff` | crates/mabi-knx/src/cemi.rs:708-926 | for every frame of every message code, decode after encode returns the frame if and only if the frame is `Exact` |
| `CemiRoundTrip.DecodeOfEncode` | crates/mabi-knx/src/cemi.rs:708-926 | with at most 255 octets of additional information every frame decodes, and to what |
| `CemiRoundTrip.GroupFrameRoundTrip` | crates/mabi-knx/src/cemi.rs:708-926 | group reads, writes and responses come back but for the hop count cut to three bits, the broadcast flag cleared and payload [0] read as empty |
| `CemiRoundTrip.DecodeEncodeDecode` | crates/mabi-knx/src/cemi.rs:760-910 | whatever octets a group value was read from, writing and reading it again reaches a normal form that stays |
| `CemiRoundTrip.TwoLayoutsOneFrame` | crates/mabi-knx/src/cemi.rs:876-910 | a group value in the two-octet layout decodes to the same frame as in the one-octet layout |
| `CemiRoundTrip.PanicIff` | crates/mabi-knx/src/cemi.rs:868-880 | decoding reads past the buffer if and only if a standard frame ends at an NPDU length octet of 0 |
| `CemiWire.MessageOctets` | crates/mabi-knx/src/cemi.rs:18-65 | the octet of each of the thirteen message codes, the same table in writing and in reading |
| `CemiWire.ServiceCodes` | crates/mabi-knx/src/cemi.rs:270-290 | the code each service is written with; two services share one |
| `CemiWire.ServiceReadAs` | crates/mabi-knx/src/cemi.rs:214-290 | the reader's table of ten-bit services is one row behind the writer's: four of sixteen services are read as themselves, the others as their predecessor |
| `CemiWire.ServiceBlocks` | crates/mabi-knx/src/cemi.rs:214-241 | a service is read by its block of 64 codes, but for the first block (read request or unknown) and the last (restart or escape) |
| `CemiWire.FieldsRead` | crates/mabi-knx/src/cemi.rs:847-926 | every standard frame that decodes has its fields at these bits of these octets |
| `CemiWire.FieldsWritten` | crates/mabi-knx/src/cemi.rs:739-758 | encoding puts the fields at the same bits, hop count cut to three, broadcast flag always clear |
| `CemiWire.FirstControlOctet` | crates/mabi-knx/src/cemi.rs:739-744 | every bit of control field 1, the unused ones included |
| `CemiWire.AcceptedIff` | crates/mabi-knx/src/cemi.rs:785-926 | an octet string decodes if and only if it is code, length octet, whole additional information and a body that is raw or holds its NPDU of at least one octet |
| `CemiWire.TrailingOctets` | crates/mabi-knx/src/cemi.rs:785-926 | octets behind a standard frame are ignored; behind a property, reset or monitor frame they become data |
| `CemiWire.InfosRefusedIff` | crates/mabi-knx/src/cemi.rs:391-407 | additional information is refused if and only if after whole items an incomplete one is left, and with the counts of that one |
| `CemiWire.RefusedIff` | crates/mabi-knx/src/cemi.rs:785-874 | an octet string is refused with an error if and only if its head, its additional information or its body gives that error |
| `CemiServices.MonitorAndResetRoundTrip` | crates/mabi-knx/src/cemi.rs:512-645 | bus-monitor indications, plain and extended, and reset indications return field for field |
| `CemiServices.MonitorStampsRead` | crates/mabi-knx/src/cemi.rs:512-564 | the receiver finds the status under type 0x03 and both timestamps, big-endian, under 0x04 and 0x06 |
| `CemiServices.PropertyReadAnswer` | crates/mabi-knx/src/cemi.rs:566-661 | a property answer survives the wire, and parsing it returns its fields if and only if the count is below 16 |
| `CemiServices.PropertyWriteAnswer` | crates/mabi-knx/src/cemi.rs:598-661 | a write answer comes back whole exactly on success; the count read is 0 on failure, and on success exactly for multiples of 16 |
| `CemiServices.ParsedOctets` | crates/mabi-knx/src/cemi.rs:650-661 | which octets a property request is parsed from; none from fewer than six |
| `Scheduler.ChaosScheduler.Start` | crates/mabi-chaos/src/scheduler.rs:416-422 | the state after a start, nothing kept from an earlier run |
| `Scheduler.ChaosScheduler.Stop` | crates/mabi-chaos/src/scheduler.rs:425-429 | the state after a stop |
| `Scheduler.ChaosScheduler.Pause` | crates/mabi-chaos/src/scheduler.rs:432-436 | only a running scheduler pauses |
| `Scheduler.ChaosScheduler.Resume` | crates/mabi-chaos/src/scheduler.rs:439-443 | only a paused scheduler resumes |
| `Scheduler.ChaosScheduler.Loop` | crates/mabi-chaos/src/scheduler.rs:457-471 | loop counting with the 32-bit clamp, the cursor moved back, the position inside the loop |
| `Scheduler.ChaosScheduler.StartDue` | crates/mabi-chaos/src/scheduler.rs:473-486 | starts entries from the cursor up to the first that is not due |
| `Scheduler.ChaosScheduler.RemoveExpired` | crates/mabi-chaos/src/scheduler.rs:488-497 | removal in place under a standing index equals an order-keeping filter, and reports what it removed in order |
| `Scheduler.ChaosScheduler.Tick` | crates/mabi-chaos/src/scheduler.rs:446-509 | the whole new state and the events of a tick, as functions of the old state and the clock readings, one per entry started and per activation looked at |
| `Scheduler.TickCompletes` | crates/mabi-chaos/src/scheduler.rs:499-506 | a tick completes if and only if the schedule does not loop, the cursor is at the end and nothing is active |
| `ScheduleRuns.EveryRun` | crates/mabi-chaos/src/scheduler.rs:416-509 | on every run: starts equal ends plus active as multisets, nothing ends early, starts are bounded by loops, completion is reported as often as the state says |
| `ScheduleRuns.Obey` | crates/mabi-chaos/src/scheduler.rs:416-509 | every command on the scheduler object is a step of the run that the theorems below speak of, with the same events |
| `ScheduleRuns.IdleTickDoesNothing` | crates/mabi-chaos/src/scheduler.rs:446-452 | a tick on a stopped, paused or completed scheduler changes nothing and reports nothing |
| `ScheduleRuns.TickEndsExpired` | crates/mabi-chaos/src/scheduler.rs:488-497 | a running tick ends only what was over when it looked at it, and keeps only what was not: nothing expired survives |
| `ScheduleRuns.CompletionMeansDone` | crates/mabi-chaos/src/scheduler.rs:499-506 | completion is reported at most once, only without looping, and only when every entry has started once and everything has ended |
| `ScheduleRuns.StartsPerLoop` | crates/mabi-chaos/src/scheduler.rs:457-486 | no entry starts more often than once plus the loops reported |
| `ScheduleCursor.CursorIsCount` | crates/mabi-chaos/src/scheduler.rs:446-486 | after every running tick of every run the cursor is the number of due entries, modulo the total when looping, across pauses and skipped loops |
| `ScheduleCursor.CursorIsCountIff` | crates/mabi-chaos/src/scheduler.rs:457-486 | without the range condition: the cursor is the count if and only if the loop number fits 32 bits, or the counter is below its limit, or the cursor is not past the count |
| `ScheduleCursor.RemainderIs` | crates/mabi-chaos/src/scheduler.rs:457-471 | the position in a loop is below the total, and whole loops plus position make up the elapsed time |
| `ScheduleCursor.LoopReportedIff` | crates/mabi-chaos/src/scheduler.rs:457-471 | on every run a running tick reports one loop if the number of whole loops passed, held to 32 bits, has grown since the last running tick, and none otherwise |
| `ScheduleCursor.LoopsNotInvented` | crates/mabi-chaos/src/scheduler.rs:457-471 | on every run no more loops are reported than have passed |
| `ScheduleCursor.OddTotals` | crates/mabi-chaos/src/scheduler.rs:457-486 | a negative total never loops and takes the position modulo its size; a zero total starts nothing and reports one loop |
| `ScheduleCursor.SaturatedCounterFails` | crates/mabi-chaos/src/scheduler.rs:457-471 | past 2^32 loops the cursor of a concrete run is not the count |
| `Glob.MatchersAgree` | crates/mabi-chaos/src/runtime.rs:623-637 | the runtime matcher and the registry matcher agree on every pattern and text |
| `Glob.GlobIsWildIff` | crates/mabi-chaos/src/registry.rs:176-195 | the matcher has wildcard semantics on every text if and only if the pattern has no star strictly inside |
| `Glob.GlobIsFramed` | crates/mabi-chaos/src/registry.rs:176-195 | for every pattern, inner stars included: the pattern without its outer stars, taken literally, starts, ends, is in or is the text |
| `Registry.MatchesIsWildIff` | crates/mabi-chaos/src/registry.rs:137-148 | matching a target, literal or glob, has wildcard semantics on every device if and only if the target has no star strictly inside |
| `Registry.FaultRegistry.Register` | crates/mabi-chaos/src/registry.rs:235-245 | adds a new fault, inactive; refuses a known id |
| `Registry.FaultRegistry.Unregister` | crates/mabi-chaos/src/registry.rs:248-253 | drops a fault; refuses an unknown id |
| `Registry.FaultRegistry.Activate` | crates/mabi-chaos/src/registry.rs:274-283 | adds a target once and enables the fault |
| `Registry.FaultRegistry.Deactivate` | crates/mabi-chaos/src/registry.rs:286-293 | drops a target and nothing else |
| `Registry.FaultRegistry.ActivateGlobally` | crates/mabi-chaos/src/registry.rs:296-304 | switches a fault on for every target |
| `Registry.FaultRegistry.DeactivateGlobally` | crates/mabi-chaos/src/registry.rs:307-315 | switches a fault off, its targets dropped too |
| `Registry.FaultRegistry.ResetAll` | crates/mabi-chaos/src/registry.rs:356-362 | resets every fault, in whatever order the map yields them |
| `Registry.FaultRegistry.ActiveFor` | crates/mabi-chaos/src/registry.rs:318-324 | lists each fault active for the target once and no other |
| `Registry.RegisteredByHistory` | crates/mabi-chaos/src/registry.rs:235-253 | a fault is present if and only if it was registered and not dropped since |
| `Registry.ActiveByHistory` | crates/mabi-chaos/src/registry.rs:137-172 | after any operations a fault is active for a device if and only if an unended global activation or an unended activation for a matching target is in the history |
| `Registry.ActiveByWildcards` | crates/mabi-chaos/src/registry.rs:137-195 | on histories whose targets have no inner star: active if and only if switched on globally or for a target that matches as a wildcard, neither ended since |
| `Registry.EnabledByHistory` | crates/mabi-chaos/src/registry.rs:235-362 | a fault is enabled if and only if it was registered enabled, activated or switched on globally, and neither dropped nor switched off globally since |
| `Registry.RepliesByHistory` | crates/mabi-chaos/src/registry.rs:235-315 | after any history registering is refused exactly for an id that is present, and every other operation on a fault exactly for one that is not |
| `Registry.EntriesStaySound` | crates/mabi-chaos/src/registry.rs:150-172 | no target is listed twice, and an active fault is enabled |
| `Registry.ResetSilences` | crates/mabi-chaos/src/registry.rs:356-362 | after a reset no fault is active for any device and none is lost |
| `ScheduleDrive.ActivateEntry` | crates/mabi-chaos/src/runtime.rs:492-500 | switches an entry's fault on, globally or target by target |
| `ScheduleDrive.DeactivateEntry` | crates/mabi-chaos/src/runtime.rs:502-510 | switches it off the same way |
| `ScheduleDrive.FaultIdIs` | crates/mabi-chaos/src/runtime.rs:485-490 | the fault of an entry is exactly what stands behind the prefix of its description |
| `ScheduleDrive.HandleEvents` | crates/mabi-chaos/src/runtime.rs:465-481 | leaving the loop at completion skips nothing, as completion comes last |
| `ScheduleDrive.TickShowsIff` | crates/mabi-chaos/src/runtime.rs:465-510 | one tick on a fault the registry shows rightly, whoever shares it: it is shown rightly again if and only if nothing that ended undercuts something that goes on |
| `ScheduleDrive.ShownMeansHits` | crates/mabi-chaos/src/registry.rs:137-148 | a fault shown rightly is active for a device if and only if an active entry of it names no target or a matching one |
| `ScheduleRegistry.RunSchedule` | crates/mabi-chaos/src/runtime.rs:452-483 | start, tick and handle over any number of ticks yields scheduler and registry state together |
| `ScheduleRegistry.ShownIff` | crates/mabi-chaos/src/runtime.rs:452-510 | any schedule, looping or sharing faults, any run, a fault that starts off: the registry shows it rightly after every tick if and only if in no tick an ended entry undercuts one that goes on |
| `ScheduleRegistry.NoUndercutsShown` | crates/mabi-chaos/src/runtime.rs:452-510 | a schedule without looping in which no entry undercuts another of positive duration shows the fault rightly throughout |
| `ScheduleShared.ShownOnEveryRunIff` | crates/mabi-chaos/src/runtime.rs:452-510 | from the schedule alone: without looping the fault is shown rightly on every run of a clock that does not go back if and only if no entry undercuts another of positive duration |
| `ScheduleShared.SharedFaultFollows` | crates/mabi-chaos/src/runtime.rs:452-510 | such a fault, shared or not, is active for a device if and only if some active entry of it hits the device |
| `ScheduleShared.ScheduleDrivesRegistry` | crates/mabi-chaos/src/runtime.rs:452-510 | with one fault per entry: after every tick a fault is active for a device if and only if its entry is active and names no target or a matching one |
| `ScheduleShared.OtherFaultsKept` | crates/mabi-chaos/src/runtime.rs:452-510 | faults that no entry names keep their registry entries on every run, looping or not |
| `ScheduleShared.SharedFaultFails` | crates/mabi-chaos/src/runtime.rs:502-510 | two overlapping entries on one fault: some run leaves it off under the longer one |
| `ScheduleCompile.AddEntry` | crates/mabi-chaos/src/scheduler.rs:240-244 | push and stable sort; on a sorted list one insertion |
| `ScheduleCompile.StableSortSorts` | crates/mabi-chaos/src/scheduler.rs:240-244 | the result is sorted by start and keeps, for each start, the same entries in the same order |
| `ScheduleCompile.CompileSchedule` | crates/mabi-chaos/src/runtime.rs:413-450 | stops at the first reference to an unknown fault and names it, or gives the sorted entries with their fault ids; either way the inline faults before that point are registered |
| `ScheduleCompile.CompiledLines` | crates/mabi-chaos/src/runtime.rs:423-446 | the compiled entries are, as a multiset, the start, duration, targets and fault id of each configured entry |
| `ScheduleCompile.InlineIdInjective` | crates/mabi-chaos/src/runtime.rs:436 | schedule number, name and entry number can be read back from an inline fault's id, whatever the name holds |
| `ScheduleCompile.RegisteredOff` | crates/mabi-chaos/src/runtime.rs:435-441 | compiling adds exactly the ids of the inline entries, each switched off, and keeps every entry that was there |
| `ScheduleCompile.CompiledEntriesOwnFaults` | crates/mabi-chaos/src/runtime.rs:423-446 | compiled entries are sorted; inline entries have fault ids of their own, and so do references that name no other entry's |
| `ScheduleCompile.CompiledScheduleDrivesRegistry` | crates/mabi-chaos/src/runtime.rs:413-510 | from configuration to registry, inline entries and references mixed: after every tick the fault of a configured entry is active for a device if and only if an activation of that fault is active and the configured targets are none or match the device |
| `FaultProcess.Process` | crates/mabi-chaos/src/engine.rs:328-393 | merging with early exits gives the first blocking behaviour or unforgiven error if any, else the longest delay, else a modification, else continue |
| `FaultProcess.FirstFinalDecides` | crates/mabi-chaos/src/engine.rs:328-393 | the first attempt that aborts, skips, returns an error or fails without being passed over is the verdict |
| `FaultProcess.NoFinalSumsUp` | crates/mabi-chaos/src/engine.rs:328-393 | without one the verdict is the longest delay asked for, else a modification asked for, else to continue, each if and only if |
| `FaultProcess.OneFault` | crates/mabi-chaos/src/engine.rs:344-373 | what one fault contributes: nothing if it is not registered or does not act, the error of its check, or its behaviour, in the context it leaves |
| `FaultProcess.AttemptsConcat` | crates/mabi-chaos/src/engine.rs:339-390 | faults behind others are asked in the context those leave |
| `FaultProcess.FlagEndsWalk` | crates/mabi-chaos/src/engine.rs:339-342 | once a fault has raised the skip flag no fault behind it is asked |
| `FaultProcess.MergePriority` | crates/mabi-chaos/src/engine.rs:442-472 | abort, skip, error, delay, modify, continue in that order; the first of two equals, the longer of two delays |
| `FaultProcess.MergeSums` | crates/mabi-chaos/src/engine.rs:442-472 | folding `merge_behaviors` over behaviours that do not block is the summary of all of them |
| `FaultProcess.VerdictShape` | crates/mabi-chaos/src/engine.rs:328-393 | a retry is never returned; a blocking verdict or an error is one that occurred |
| `FaultProcess.OrderMattersIff` | crates/mabi-chaos/src/engine.rs:328-393 | the verdict is the same for every order of the attempts if and only if no two different ones are decisive |
| `FaultProcess.ProcessIgnoresOrderIff` | crates/mabi-chaos/src/engine.rs:328-393 | faults that answer alike in every context give one verdict for every registry order if and only if no two answers that decide differ |
| `ChaosEngine.Engine.Start` | crates/mabi-chaos/src/engine.rs:170-188 | refused exactly when running; restarts the scheduler |
| `ChaosEngine.Engine.Stop` | crates/mabi-chaos/src/engine.rs:191-212 | refused exactly when stopped; afterwards no fault is active for any device |
| `ChaosEngine.Engine.Pause` | crates/mabi-chaos/src/engine.rs:215-226 | refused unless running |
| `ChaosEngine.Engine.Resume` | crates/mabi-chaos/src/engine.rs:229-243 | refused unless paused |
| `ChaosEngine.Engine.Process` | crates/mabi-chaos/src/engine.rs:328-393 | continue unless running; else the verdict over exactly the faults active for the target, in some order |
| `ErrorTracker.ChannelErrorState.PruneOldEvents` | crates/mabi-knx/src/error_tracker.rs:162-171 | popping from the front drops the leading stamps before the cutoff |
| `ErrorTracker.ChannelErrorState.WindowErrorCount` | crates/mabi-knx/src/error_tracker.rs:174-180 | counts the stamps inside the window |
| `ErrorTrackerHistory.CountSinceIs` | crates/mabi-knx/src/error_tracker.rs:174-180 | that count is the number of recorded stamps not before the cutoff |
| `ErrorTracker.ChannelErrorState.Failure` | crates/mabi-knx/src/error_tracker.rs:465-508 | record, prune, judge: the new channel state and the result |
| `ErrorTracker.SendErrorTracker.OnSendSuccess` | crates/mabi-knx/src/error_tracker.rs:442-455 | the new state of the channel and the totals; nothing when disabled |
| `ErrorTracker.SendErrorTracker.OnSendFailure` | crates/mabi-knx/src/error_tracker.rs:460-511 | the new state of the channel, the totals and the trigger counts, and the result |
| `ErrorTracker.SendErrorTracker.WindowErrorCount` | crates/mabi-knx/src/error_tracker.rs:547-553 | the window count of a channel, 0 for an unknown one |
| `ErrorTracker.SendErrorTracker.ResetChannelState` | crates/mabi-knx/src/error_tracker.rs:564-568 | clears streak, window and flag, keeps the totals |
| `ErrorTracker.SendErrorTracker.RemoveChannel` | crates/mabi-knx/src/error_tracker.rs:571-573 | forgets a channel, not the global totals |
| `ErrorTrackerHistory.WindowAgreesWithHistory` | crates/mabi-knx/src/error_tracker.rs:150-180 | at any time from the last event on, the pruned deque counts every failure since the last reset or removal that is inside the window |
| `ErrorTrackerHistory.StreakByHistory` | crates/mabi-knx/src/error_tracker.rs:142-159 | the counter is the trailing run of failures, and the flag is up exactly from the firing streak on |
| `ErrorTrackerHistory.SignalOncePerStreak` | crates/mabi-knx/src/error_tracker.rs:476-488 | the restart signal is returned on exactly the failure that brings the streak to the threshold |
| `ErrorTrackerHistory.AlarmByHistory` | crates/mabi-knx/src/error_tracker.rs:490-503 | when the rate alarm is raised, both directions, and what it reports: the errors counted, the configured window, and the whole percentage of errors among sends, all from the history alone |
| `ErrorTrackerHistory.TriggersByHistory` | crates/mabi-knx/src/error_tracker.rs:476-503 | the two trigger counters are the numbers of restart signals and of rate alarms in the history |
| `ErrorTrackerHistory.DisabledStaysEmpty` | crates/mabi-knx/src/error_tracker.rs:442-463 | a disabled tracker records nothing and raises nothing on every history |
| `ErrorTrackerHistory.AlarmIsSound` | crates/mabi-knx/src/error_tracker.rs:184-190 | a raised alarm means the true ratio in the window exceeds the threshold, and the percentage is at most 100 |
| `ErrorTrackerHistory.AlarmIsExactWhenRecent` | crates/mabi-knx/src/error_tracker.rs:490-503 | with the channel's whole life in the window and no reset the alarm is raised if and only if the true ratio exceeds the threshold |
| `ErrorTrackerHistory.AlarmCanMiss` | crates/mabi-knx/src/error_tracker.rs:184-190 | old successes hide a window in which every send failed |
| `ErrorTrackerHistory.ChannelsIndependent` | crates/mabi-knx/src/error_tracker.rs:442-573 | a channel's state is what its own events alone make it |
| `ErrorTrackerHistory.TotalsAddUp` | crates/mabi-knx/src/error_tracker.rs:442-573 | the global totals are the sums over live and removed channels |
| `TokenBucket.RateLimiter.Refill` | crates/mabi-core/src/utils.rs:505-519 | adds whole tokens up to capacity and books the time; with none to add, changes nothing |
| `TokenBucket.RateLimiter.TryAcquire` | crates/mabi-core/src/utils.rs:460-477 | grants if and only if a token is there after the refill, whatever spurious failures the exchange has |
| `TokenBucket.RateLimiter.TryAcquireN` | crates/mabi-core/src/utils.rs:480-497 | the same for n tokens, all or nothing |
| `TokenBucket.RateLimiter.Available` | crates/mabi-core/src/utils.rs:500-503 | the token count after the refill |
| `TokenBucket.GrantBound` | crates/mabi-core/src/utils.rs:448-519 | in every sequential run the tokens granted are at most capacity + floor(rate × elapsed) |
| `TokenBucket.EarnedIs` | crates/mabi-core/src/utils.rs:505-519 | what an interval earns is the whole part of seconds times rate |
| `TokenBucket.BoundIsMet` | crates/mabi-core/src/utils.rs:448-519 | some run grants exactly that much whenever the bucket can hold what the interval is worth |
| `TokenBucket.RefillKeepsTokensIff` | crates/mabi-core/src/utils.rs:505-519 | a refill takes no tokens away if and only if the 64-bit addition does not wrap |
| `TokenBucket.EmptyPollsAreFree` | crates/mabi-core/src/utils.rs:505-519 | polls that find less than a whole token, however many, leave the bucket untouched |
| `TokenBucket.PollDelaysIff` | crates/mabi-core/src/utils.rs:505-519 | a poll delays the next token if and only if it collects something, the fraction it discards would have made a token, and there is room for it; never by more than one |
| `TokenBucket.PollCanDelay` | crates/mabi-core/src/utils.rs:505-519 | one token a second, polled at 1.5 s: at 2 s the second token is missing |
| `TokenBucket.PollingCost` | crates/mabi-core/src/utils.rs:505-519 | any sequence of polls costs at most one token for each that collected something, and gains none |
| `TokenBucketRace.TokensWithinCapacity` | crates/mabi-core/src/utils.rs:460-519 | under every interleaving the token count stays within capacity and at most one thread is refilling |
| `TokenBucketRace.RacedGrantBound` | crates/mabi-core/src/utils.rs:460-519 | under every interleaving the grants exceed the sequential bound by no more than those made between a refill's load and its store |
| `TokenBucketRace.BoundUnderRacesIff` | crates/mabi-core/src/utils.rs:460-519 | the sequential bound holds under every interleaving if and only if the limiter holds at most one token or does not refill |
| `TokenBucketRace.RaceExceeds` | crates/mabi-core/src/utils.rs:460-519 | every limiter that can hold two tokens and refills has an interleaving that grants one token more than the bound |
| `TokenBucketRace.RaceBreaksBound` | crates/mabi-core/src/utils.rs:505-519 | two tokens and one more a second: four tokens where three are allowed |
| `TokenBucketRace.Uninterrupted` | crates/mabi-core/src/utils.rs:480-519 | a call nobody interrupts does what the sequential limiter does |
| `TokenBucketRace.CallEndsIff` | crates/mabi-core/src/utils.rs:480-497 | in every reachable state a call ends exactly when it reads too few tokens or its exchange meets an unchanged count; a failed exchange is tried again, and only a served call takes tokens |
| `TokenBucketRace.LockBlocks` | crates/mabi-core/src/utils.rs:505-506 | a thread in front of the lock does not move while another refills |
| `RunningAverage.DeviceStatistics.RecordTick` | crates/mabi-core/src/device.rs:256-261 | count and average after a tick, in 64 bits |
| `RunningAverage.AverageNearMean` | crates/mabi-core/src/device.rs:256-261 | as long as no step wraps, for any number of ticks, the average is at most the mean and at least the mean less (n-1)/2 |
| `RunningAverage.NearMeanIff` | crates/mabi-core/src/device.rs:256-261 | up to 2^32 ticks the average keeps within those bounds throughout if and only if before every tick average × ticks + duration is below 2^64 |
| `RunningAverage.SmallSumsFit` | crates/mabi-core/src/device.rs:256-261 | durations that add up to a 64-bit number never wrap |
| `RunningAverage.AverageBetween` | crates/mabi-core/src/device.rs:256-261 | as long as no step wraps the average lies between the least and the greatest sample |
| `RunningAverage.LagIsMet` | crates/mabi-core/src/device.rs:256-261 | the lag of (n-1)/2 is reached for every n |
| `RunningAverage.WrappedAverage` | crates/mabi-core/src/device.rs:256-261 | the greatest duration twice: the second tick wraps, and the average is half of either sample |
| `Latency.FromSamples` | crates/mabi-core/src/metrics.rs:754-787 | sorting a copy, summing and indexing yield the statistics that describe the samples, all zero for no sample |
| `Latency.PercentileIff` | crates/mabi-core/src/metrics.rs:790-796 | for every p below 100 the percentile is the one value with more than p percent of the samples at most it and at most p percent below it |
| `Latency.StatsDescribe` | crates/mabi-core/src/metrics.rs:754-787 | each field is what its name says of the unsorted samples: extremes, wrapped mean, count, and the 50, 90, 95 and 99 percent quantiles |
| `Latency.DescriptionUnique` | crates/mabi-core/src/metrics.rs:754-787 | only one set of statistics describes the samples |
| `Latency.StatsOrdered` | crates/mabi-core/src/metrics.rs:754-787 | min and max are the extremes, min ≤ p50 ≤ p90 ≤ p95 ≤ p99 ≤ max, and the average is the floored mean between them if the sum fits 64 bits, and below it, for up to 2^64 samples, if it does not |
| `Latency.SortedUnique` | crates/mabi-core/src/metrics.rs:759-760 | two sorted lists of the same samples are equal, so the choice of sorting routine does not matter |
| `Latency.OrderIrrelevant` | crates/mabi-core/src/metrics.rs:754-787 | no statistic depends on the order of the samples |
| `ConnectionCore.UnitIdSet.Record` | crates/mabi-modbus/src/connection_core.rs:59-70 | true exactly on a new id; set bits and listed ids stay the same set, each listed once |
| `ConnectionCore.UnitIdSet.Snapshot` | crates/mabi-modbus/src/connection_core.rs:72-75 | the ids whose bits are set, each once |
| `ConnectionCore.RecordAll` | crates/mabi-modbus/src/connection_core.rs:59-70 | after any records the list is the input with repeats dropped, and the replies say which were new |
| `ConnectionCore.FirstSeenOrder` | crates/mabi-modbus/src/connection_core.rs:59-70 | ids are listed in the order of their first appearance |
| `ConnectionCore.IndexIsModulo` | crates/mabi-modbus/src/connection_core.rs:13-34 | for every shard count and id, mask or no mask, the shard is the id modulo the count and in range |
| `DeviceIndex.SimulatorEngine.AddDevice` | crates/mabi-core/src/engine.rs:117-159 | both maps and the reply, for each of the four outcomes |
| `DeviceIndex.SimulatorEngine.RemoveDevice` | crates/mabi-core/src/engine.rs:163-189 | both maps and the reply; a failed stop leaves the index as it was |
| `DeviceIndex.SimulatorEngine.ListDevicesByProtocol` | crates/mabi-core/src/engine.rs:202-212 | the indexed ids that still exist, with the device table's information |
| `DeviceIndex.DevicesByHistory` | crates/mabi-core/src/engine.rs:117-189 | after every run a device is there under a protocol if and only if an accepted call added it so and no later call removed it |
| `DeviceIndex.RepliesByHistory` | crates/mabi-core/src/engine.rs:117-189 | what each call answers after any run: capacity first, then the id as the history says, then whether the device starts or stops |
| `DeviceIndex.WithoutConcat` | crates/mabi-core/src/engine.rs:174-177 | removing an id keeps the others in their order |
| `DeviceIndex.ListingConcat` | crates/mabi-core/src/engine.rs:202-212 | a listing follows the order of the index |
| `DeviceIndex.IndexCounts` | crates/mabi-core/src/engine.rs:117-189 | after every run an id is indexed under a protocol once if it lives there, plus once per stop that failed since the last that did not |
| `DeviceIndex.ListingsExactIff` | crates/mabi-core/src/engine.rs:117-212 | every listing shows exactly the devices of its protocol, each once, if and only if no live device has an entry left by a failed stop |
| `DeviceIndex.IndexAgrees` | crates/mabi-core/src/engine.rs:117-212 | so on every run in which no stop fails |
| `DeviceIndex.FailedStopShows` | crates/mabi-core/src/engine.rs:163-189 | at any point of any run, a failed stop followed by adding the same id again makes a listing wrong |
| `DeviceIndex.WithinCapacity` | crates/mabi-core/src/engine.rs:117-131 | the device count never exceeds the configured maximum |

## Left out

- Scheduler: kinds of chaos, intensities, `remaining`, the target queries and its own glob matcher; start times that are not numbers; entries with negative durations, on which the code aborts.
- Compiling a schedule: configuration errors of a fault or of an entry's kind.
- Fault registry: the faults themselves, filters, statistics; a fault is known by its enabled flag and its activations.
- Process: a fault is an abstract step on a context of which only the skip flag matters to the walk; events, delays actually waited for and `process_after` are left out.
- Error tracker: error categories, display timestamps, summaries and configuration checks; event counters are unbounded where the code has 32 and 64 bits.
- cEMI: text forms and builders; `decode_simple`; the message code helpers that only classify; services other than the three group values have no round trip, which `NpduRoundTripIff` states.
- Rate limiter: rates that are infinite or not numbers; in builds with overflow checks the wrapping addition of a refill aborts instead.
- TokenBucketRace: `available` is not a separate call; it is a refill, which is modelled, and a read. Memory orderings weaker than sequential consistency are left out.
- Latency: the standard deviation; samples are taken as the 64-bit microsecond counts they are converted to.
- Shard router: word size is taken as 64 bits; the address hash is an input like an id.
- Device index: the time between checks and insertion in which another caller may interfere, metrics and broadcast events.
- Everything else of the repository: the protocol servers, transports, command line, configuration files, data point codecs, metrics export and the asynchronous runtime, which are input and output or would add only easy members.
