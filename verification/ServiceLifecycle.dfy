/**
 The Service state machine of core/lifecycle/manager.js, with the start-up options that
 AutonomousService (core/autonomous/manager.js) adds. A hook is seen only through its
 outcome: it returns, or it throws or times out.
 */
module ServiceLifecycle {
  import opened ServiceEvents
  import opened StartOrder

  datatype AutoStartPolicy = Always | OnFailure | Never | OnDemand

  /** The outcome of each hook; a missing hook counts as one that returns. */
  datatype Hooks = Hooks(init: bool, start: bool, stop: bool)

  /** What init announces: nothing where it throws at once. */
  function InitLog(n: Name, state: ServiceState, hookReturns: bool): Log {
    if state != Created then [] else if hookReturns then [ServiceInit(n)] else [ServiceInit(n), ServiceError(n)]
  }

  function StartLog(n: Name, state: ServiceState, hookReturns: bool): Log {
    if state != Ready && state != Stopped then []
    else [ServiceStarting(n), if hookReturns then ServiceStarted(n) else ServiceError(n)]
  }

  function StopLog(n: Name, state: ServiceState, hookReturns: bool): Log {
    if state != Running then []
    else [ServiceStopping(n), if hookReturns then ServiceStopped(n) else ServiceError(n)]
  }

  class Service {
    const name: Name
    const hooks: Hooks
    const autoStartPolicy: AutoStartPolicy
    const startupPriority: int
    const eventBus: EventBus
    var state: ServiceState
    var dependents: seq<Name>

    constructor (name: Name, hooks: Hooks, policy: AutoStartPolicy, priority: int, eventBus: EventBus)
      ensures this.name == name && this.hooks == hooks && this.eventBus == eventBus
      ensures autoStartPolicy == policy && startupPriority == (if priority == 0 then 100 else priority)
      ensures state == Created && dependents == []
    {
      this.name, this.hooks, this.autoStartPolicy, this.eventBus := name, hooks, policy, eventBus;
      startupPriority := if priority == 0 then 100 else priority;
      state := Created;
      dependents := [];
    }

    predicate IsRunning()
      reads `state
    {
      state == Running
    }

    /** ok is false where the source throws. */
    method Init() returns (ok: bool)
      modifies this`state, eventBus`log
      ensures ok <==> old(state) == Created && hooks.init
      ensures state == if old(state) != Created then old(state) else if hooks.init then Ready else Errored
      ensures eventBus.log == old(eventBus.log) + InitLog(name, old(state), hooks.init)
    {
      if state != Created {
        return false;
      }
      state := Initializing;
      eventBus.Emit(ServiceInit(name));
      if hooks.init {
        state := Ready;
        return true;
      }
      state := Errored;
      eventBus.Emit(ServiceError(name));
      return false;
    }

    method Start() returns (ok: bool)
      modifies this`state, eventBus`log
      ensures ok <==> old(state) == Running || ((old(state) == Ready || old(state) == Stopped) && hooks.start)
      ensures state == if old(state) != Ready && old(state) != Stopped then old(state)
                       else if hooks.start then Running else Errored
      ensures eventBus.log == old(eventBus.log) + StartLog(name, old(state), hooks.start)
    {
      if state == Running {
        return true;
      }
      if state != Ready && state != Stopped {
        return false;
      }
      state := Starting;
      eventBus.Emit(ServiceStarting(name));
      if hooks.start {
        state := Running;
        eventBus.Emit(ServiceStarted(name));
        return true;
      }
      state := Errored;
      eventBus.Emit(ServiceError(name));
      return false;
    }

    method Stop() returns (ok: bool)
      modifies this`state, eventBus`log
      ensures ok <==> old(state) != Running || hooks.stop
      ensures state == if old(state) != Running then old(state) else if hooks.stop then Stopped else Errored
      ensures eventBus.log == old(eventBus.log) + StopLog(name, old(state), hooks.stop)
    {
      if state != Running {
        return true;
      }
      state := Stopping;
      eventBus.Emit(ServiceStopping(name));
      if hooks.stop {
        state := Stopped;
        eventBus.Emit(ServiceStopped(name));
        return true;
      }
      state := Errored;
      eventBus.Emit(ServiceError(name));
      return false;
    }
  }
}
