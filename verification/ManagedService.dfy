/** The engine lifecycle as the service keeps it: the sections under the state lock, updating its fields in place. */
module ManagedService {
  import opened IdleUnload

  class ManagedService {
    var idleGeneration: nat
    var timerArmed: bool
    var demandLoaded: bool
    var manualPinned: bool
    var closed: bool
    var idleAfter: int
    ghost var armed: set<nat>

    ghost function State(): Flags
      reads this
    {
      Flags(idleGeneration, armed, demandLoaded, manualPinned, closed, idleAfter)
    }

    constructor (after: int)
      ensures State() == Init(after).flags
    {
      idleGeneration, timerArmed, demandLoaded, manualPinned, closed := 0, false, false, false, false;
      idleAfter := after;
      armed := {};
    }

    method StopIdleTimerLocked()
      modifies this
      ensures State() == StopTimer(old(State())) && !timerArmed
    {
      idleGeneration := idleGeneration + 1;
      if timerArmed {
        timerArmed := false;
      }
    }

    method RearmIdleTimerLocked(generation: nat)
      modifies this
      ensures State() == Arm(old(State()), generation) && timerArmed
    {
      timerArmed := true;
      armed := armed + {generation};
    }

    method ScheduleIdleUnloadLocked(runner: bool)
      modifies this
      ensures State() == Schedule(old(State()), runner)
    {
      StopIdleTimerLocked();
      if closed || manualPinned || !demandLoaded || idleAfter < 0 || !runner {
        return;
      }
      RearmIdleTimerLocked(idleGeneration);
    }

    method SetIdleUnload(after: int, runner: bool)
      modifies this
      ensures State() == Schedule(old(State()).(idleAfter := after), runner)
    {
      idleAfter := after;
      ScheduleIdleUnloadLocked(runner);
    }

    method Close()
      modifies this
      ensures State() == if old(closed) then old(State()) else StopTimer(old(State()).(closed := true))
    {
      if closed {
        return;
      }
      closed := true;
      StopIdleTimerLocked();
    }

    /** An explicit load pins the engine; returns whether it may proceed and what it displaced. */
    method BeginLoad(ghost s: Service, id: nat) returns (proceed: bool, previousDemand: bool)
      requires id < |s.stages| && s.stages[id] == LoadGot && s.flags == State()
      modifies this
      ensures proceed == !old(closed)
      ensures State() == AfterEnter(s, id, true, false, false).flags
      ensures proceed ==> AfterEnter(s, id, true, false, false).stages[id] == LoadCalling(previousDemand)
    {
      if closed {
        return false, false;
      }
      previousDemand := demandLoaded;
      StopIdleTimerLocked();
      manualPinned := true;
      demandLoaded := false;
      proceed := true;
    }

    /** A failed explicit load drops the pin and keeps track of an engine still resident. */
    method LoadFailed(ghost s: Service, id: nat, previousDemand: bool, loaded: bool, runner: bool)
      requires id < |s.stages| && s.stages[id] == LoadCalling(previousDemand) && s.flags == State()
      modifies this
      ensures State() == AfterReturn(s, id, false, loaded, runner).flags
    {
      manualPinned := false;
      demandLoaded := loaded || previousDemand;
      if demandLoaded {
        ScheduleIdleUnloadLocked(runner);
      }
    }

    /** The runner holds the requested model: the timer stops and an unpinned engine counts as demand-loaded. */
    method ReconcileLoaded(ghost s: Service, id: nat)
      requires id < |s.stages| && s.stages[id] == ExecGot && s.flags == State()
      modifies this
      ensures State() == AfterEnter(s, id, true, true, false).flags
    {
      StopIdleTimerLocked();
      if !manualPinned {
        demandLoaded := true;
      }
    }

    /** A switch to the requested model: both flags are cleared until the runner answers. */
    method BeginSwitch(ghost s: Service, id: nat) returns (previousDemand: bool, previousPinned: bool)
      requires id < |s.stages| && s.stages[id] == ExecGot && s.flags == State()
      modifies this
      ensures State() == AfterEnter(s, id, true, false, false).flags
      ensures AfterEnter(s, id, true, false, false).stages[id] == ExecLoading(previousDemand, previousPinned)
    {
      previousDemand, previousPinned := demandLoaded, manualPinned;
      StopIdleTimerLocked();
      demandLoaded := false;
      manualPinned := false;
    }

    method EndSwitch(ghost s: Service, id: nat, previousDemand: bool, previousPinned: bool, ok: bool, loaded: bool, runner: bool)
      requires id < |s.stages| && s.stages[id] == ExecLoading(previousDemand, previousPinned) && s.flags == State()
      modifies this
      ensures State() == AfterReturn(s, id, ok, loaded, runner).flags
    {
      if ok {
        demandLoaded := true;
        manualPinned := false;
      } else if previousPinned {
        manualPinned := true;
      } else if loaded || previousDemand {
        demandLoaded := true;
        ScheduleIdleUnloadLocked(runner);
      }
    }

    /** A stream has ended: the engine's idle period starts over. */
    method EndStream(ghost s: Service, id: nat, runner: bool)
      requires id < |s.stages| && s.stages[id] == ExecStreaming && s.flags == State()
      modifies this
      ensures State() == AfterReturn(s, id, true, false, runner).flags
    {
      ScheduleIdleUnloadLocked(runner);
    }

    /** An explicit unload has succeeded. */
    method UnloadReturned(ghost s: Service, id: nat)
      requires id < |s.stages| && s.stages[id] == UnloadCalling && s.flags == State()
      modifies this
      ensures State() == AfterReturn(s, id, true, false, true).flags
    {
      manualPinned := false;
      demandLoaded := false;
    }

    /** The timer callback's check under the lock: unload now, look again later, or do nothing. */
    method IdleCheck(ghost s: Service, id: nat, generation: nat, busy: bool, runner: bool) returns (unload: bool)
      requires id < |s.stages| && s.stages[id] == IdleGot(generation) && s.flags == State()
      modifies this
      ensures State() == AfterEnter(s, id, runner, false, busy).flags
      ensures unload <==> AfterEnter(s, id, runner, false, busy).stages[id] == IdleCalling(generation)
    {
      if closed || generation != idleGeneration || manualPinned || !demandLoaded {
        return false;
      }
      if busy {
        timerArmed := false;
        RearmIdleTimerLocked(generation);
        return false;
      }
      unload := runner;
    }

    method IdleUnloadReturned(ghost s: Service, id: nat, generation: nat, ok: bool)
      requires id < |s.stages| && s.stages[id] == IdleCalling(generation) && s.flags == State()
      modifies this
      ensures State() == AfterReturn(s, id, ok, false, true).flags
    {
      if !ok {
        if !closed && generation == idleGeneration && demandLoaded && !manualPinned {
          timerArmed := false;
          RearmIdleTimerLocked(generation);
        }
        return;
      }
      if generation == idleGeneration && !closed && !manualPinned {
        demandLoaded := false;
        timerArmed := false;
      }
    }
  }
}
