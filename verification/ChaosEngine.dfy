/** The chaos engine's lifecycle around registry and scheduler (crates/mabi-chaos/src/engine.rs). */
module ChaosEngine {
  import opened Registry
  import Scheduler
  import FaultProcess
  import Wrappers

  datatype EngineState = Stopped | Running | Paused

  datatype EngineReply = Done | EngineAlreadyRunning | EngineNotRunning | InvalidStateTransition(from: EngineState)

  /** Nothing is active for any device. */
  ghost predicate Silent(faults: Faults) {
    forall id, device :: id in faults ==> !faults[id].IsActiveFor(device)
  }

  class Engine {
    const registry: FaultRegistry
    const continueOnError: bool
    var scheduler: Scheduler.ChaosScheduler?
    var state: EngineState

    constructor (continueOnError: bool)
      ensures state == Stopped && scheduler == null && registry.faults == map[] && fresh(registry)
      ensures this.continueOnError == continueOnError
    {
      registry := new FaultRegistry();
      this.continueOnError := continueOnError;
      scheduler := null;
      state := Stopped;
    }

    method Start(now: real) returns (r: EngineReply)
      modifies this`state, scheduler
      ensures r == if old(state) == Running then EngineAlreadyRunning else Done
      ensures state == Running
      ensures scheduler != null ==>
        scheduler.View() == if r.Done?
          then old(scheduler.View()).(state := Scheduler.Running, active := [], startTime := Wrappers.Some(now), next := 0, loops := 0)
          else old(scheduler.View())
    {
      if state == Running {
        return EngineAlreadyRunning;
      }
      state := Running;
      if scheduler != null {
        scheduler.Start(now);
      }
      return Done;
    }

    /** Stopping resets every fault: afterwards nothing is active for any device. */
    method Stop() returns (r: EngineReply)
      modifies this`state, registry, scheduler
      ensures r == if old(state) == Stopped then EngineNotRunning else Done
      ensures state == Stopped
      ensures registry.faults == if r.Done? then Apply(old(registry.faults), Op.ResetAll) else old(registry.faults)
      ensures r.Done? ==> Silent(registry.faults)
      ensures scheduler != null ==>
        scheduler.View() == if r.Done?
          then old(scheduler.View()).(state := Scheduler.Stopped, active := [], startTime := Wrappers.None)
          else old(scheduler.View())
    {
      if state == Stopped {
        return EngineNotRunning;
      }
      if scheduler != null {
        scheduler.Stop();
      }
      state := Stopped;
      registry.ResetAll();
      forall id, device | id in registry.faults
        ensures !registry.faults[id].IsActiveFor(device)
      {
        ResetSilences(old(registry.faults), id, device);
      }
      return Done;
    }

    method Pause() returns (r: EngineReply)
      modifies this`state
      ensures r == if old(state) == Running then Done else EngineNotRunning
      ensures state == if r.Done? then Paused else old(state)
    {
      if state != Running {
        return EngineNotRunning;
      }
      state := Paused;
      return Done;
    }

    method Resume() returns (r: EngineReply)
      modifies this`state
      ensures r == if old(state) == Paused then Done else InvalidStateTransition(old(state))
      ensures state == if r.Done? then Running else old(state)
    {
      if state != Paused {
        return InvalidStateTransition(state);
      }
      state := Running;
      return Done;
    }

    /** `process`: the verdict over the faults active for the target, in the registry's order. */
    method Process(faults: FaultProcess.FaultMap, target: string, ctx: FaultProcess.Context)
      returns (v: FaultProcess.Verdict)
      ensures state != Running ==> v == FaultProcess.Decided(FaultProcess.Continue)
      ensures state == Running ==> exists ids ::
        && NoDuplicates(ids)
        && (forall id :: id in ids <==> id in registry.faults && registry.faults[id].IsActiveFor(target))
        && v == FaultProcess.VerdictOf(FaultProcess.Attempts(faults, ids, ctx), continueOnError)
      ensures Silent(registry.faults) ==> v == FaultProcess.Decided(FaultProcess.Continue)
    {
      if state != Running {
        return FaultProcess.Decided(FaultProcess.Continue);
      }
      var ids := registry.ActiveFor(target);
      v := FaultProcess.Process(faults, ids, ctx, continueOnError);
      if Silent(registry.faults) {
        assert |ids| > 0 ==> ids[0] in ids;
      }
    }
  }
}
