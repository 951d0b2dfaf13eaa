/**
 What the engine's two flags mean over whole runs: the pin is exactly the owner's last
 word, an engine loaded on demand always gets a timer when its stream ends, and a
 current timer that fires on an idle engine releases it.
 */
module IdleLaws {
  import opened IdleUnload

  // ----- the pin -----

  /** The owner's last word after one more step: an explicit load pins; a failed one, an unload or a switch to another model unpins. */
  function NextPin(s: Service, step: Step, pinned: bool): bool {
    match step
    case Enter(id, runner, matches, busy) =>
      if id < |s.stages| && s.stages[id].LoadGot? && runner && !s.flags.closed then true else pinned
    case Return(id, ok, loaded, runner) =>
      if id >= |s.stages| then pinned
      else if s.stages[id].LoadCalling? then ok && pinned
      else if s.stages[id].UnloadCalling? || s.stages[id].ExecLoading? then !ok && pinned
      else pinned
    case _ => pinned
  }

  function Pinned(s: Service, steps: seq<Step>, pinned: bool): bool
    decreases |steps|
  {
    if steps == [] then pinned else Pinned(Apply(s, steps[0]), steps[1..], NextPin(s, steps[0], pinned))
  }

  /** The flag is that word, except while a switch is under way, which remembers it. */
  ghost predicate PinIs(s: Service, pinned: bool) {
    if s.gate.Held? && s.gate.holder < |s.stages| && s.stages[s.gate.holder].ExecLoading?
    then !s.flags.manualPinned && s.stages[s.gate.holder].hadPin == pinned
    else s.flags.manualPinned == pinned
  }

  lemma EnterPin(s: Service, id: nat, runner: bool, matches: bool, busy: bool, pinned: bool)
    requires Inv(s) && PinIs(s, pinned)
    ensures PinIs(Apply(s, Enter(id, runner, matches, busy)), NextPin(s, Enter(id, runner, matches, busy), pinned))
  {
    if id < |s.stages| && InsideGate(s.stages[id]) { assert s.gate == Held(id); }
  }

  lemma ReturnPin(s: Service, id: nat, ok: bool, loaded: bool, runner: bool, pinned: bool)
    requires Inv(s) && PinIs(s, pinned)
    ensures PinIs(Apply(s, Return(id, ok, loaded, runner)), NextPin(s, Return(id, ok, loaded, runner), pinned))
  {
    if id < |s.stages| && InsideGate(s.stages[id]) { assert s.gate == Held(id); }
  }

  lemma StepPin(s: Service, step: Step, pinned: bool)
    requires Inv(s) && PinIs(s, pinned)
    ensures PinIs(Apply(s, step), NextPin(s, step, pinned))
  {
    hide AfterEnter, AfterReturn;
    match step
    case Enter(id, runner, matches, busy) => EnterPin(s, id, runner, matches, busy, pinned);
    case Return(id, ok, loaded, runner) => ReturnPin(s, id, ok, loaded, runner, pinned);
    case _ =>
  }

  lemma {:induction false} RunPin(s: Service, steps: seq<Step>, pinned: bool)
    requires Inv(s) && PinIs(s, pinned)
    ensures PinIs(Exec(s, steps), Pinned(s, steps, pinned))
    decreases |steps|
  {
    hide Inv, Apply, PinIs, NextPin;
    if steps != [] {
      StepPin(s, steps[0], pinned);
      ApplyKeeps(s, steps[0]);
      RunPin(Apply(s, steps[0]), steps[1..], NextPin(s, steps[0], pinned));
    }
  }

  /**
   In every run the engine is pinned exactly when an explicit load pinned it and no
   failed load, successful unload or successful switch has come since; a switch under
   way remembers that, to restore it should it fail.
   */
  lemma PinnedExactly(idleAfter: int, steps: seq<Step>)
    ensures PinIs(Exec(Init(idleAfter), steps), Pinned(Init(idleAfter), steps, false))
  {
    hide Inv;
    InitInv(idleAfter);
    RunPin(Init(idleAfter), steps, false);
  }

  // ----- the timer -----

  /** A timer of the current generation is running for an engine marked for idle release. */
  ghost predicate Watched(f: Flags) {
    f.demandLoaded && !f.manualPinned && f.generation in f.armed
  }

  lemma StepReach(idleAfter: int, steps: seq<Step>, id: nat)
    requires id < |Exec(Init(idleAfter), steps).stages|
    ensures var s := Exec(Init(idleAfter), steps);
      && Inv(s) && (InsideGate(s.stages[id]) ==> s.gate == Held(id) && FlagsFit(s.flags, s.stages[id]))
  {
    InitInv(idleAfter);
    ExecKeeps(Init(idleAfter), steps);
  }

  /** When a stream ends on an open, unpinned service with a policy and a runner, the engine's idle timer is running. */
  lemma StreamEndArms(idleAfter: int, steps: seq<Step>, id: nat, loaded: bool)
    requires var s := Exec(Init(idleAfter), steps);
      id < |s.stages| && s.stages[id] == ExecStreaming && !s.flags.closed && !s.flags.manualPinned && s.flags.idleAfter >= 0
    ensures var s2 := Apply(Exec(Init(idleAfter), steps), Return(id, true, loaded, true));
      Watched(s2.flags) && s2.gate == Free
  {
    hide Inv;
    StepReach(idleAfter, steps, id);
  }

  /** A switch that fails restores the owner's pin, or leaves a timer running for an engine that is or was loaded on demand. */
  lemma FailedSwitchRestores(idleAfter: int, steps: seq<Step>, id: nat, loaded: bool)
    requires var s := Exec(Init(idleAfter), steps);
      id < |s.stages| && s.stages[id].ExecLoading? && !s.flags.closed && s.flags.idleAfter >= 0
    ensures var s := Exec(Init(idleAfter), steps);
      var s2 := Apply(s, Return(id, false, loaded, true));
      && s2.gate == Free
      && (s.stages[id].hadPin ==> s2.flags.manualPinned && !s2.flags.demandLoaded)
      && (!s.stages[id].hadPin && (loaded || s.stages[id].hadDemand) ==> Watched(s2.flags))
      && (!s.stages[id].hadPin && !loaded && !s.stages[id].hadDemand ==> !s2.flags.manualPinned && !s2.flags.demandLoaded)
  {
    hide Inv;
    StepReach(idleAfter, steps, id);
  }

  /** An explicit load that fails drops the pin, and leaves a timer running for an engine that is or was loaded on demand. */
  lemma FailedLoadWatches(idleAfter: int, steps: seq<Step>, id: nat, loaded: bool)
    requires var s := Exec(Init(idleAfter), steps);
      id < |s.stages| && s.stages[id].LoadCalling? && !s.flags.closed && s.flags.idleAfter >= 0
    ensures var s := Exec(Init(idleAfter), steps);
      var s2 := Apply(s, Return(id, false, loaded, true));
      && s2.gate == Free && !s2.flags.manualPinned
      && (if loaded || s.stages[id].hadDemand then Watched(s2.flags) else !s2.flags.demandLoaded)
  {
    hide Inv;
    StepReach(idleAfter, steps, id);
  }

  /** The steps of a timer that fires while nothing holds the gate and the queue is idle. */
  function Firing(s: Service): seq<Step> {
    var n := |s.stages|;
    [Begin(IdleWait(s.flags.generation)), Acquire(n), Enter(n, true, false, false), Return(n, true, false, true)]
  }

  lemma ExecFour(s: Service, steps: seq<Step>)
    requires |steps| == 4
    ensures Exec(s, steps) == Apply(Apply(Apply(Apply(s, steps[0]), steps[1]), steps[2]), steps[3])
  {
    hide Apply;
    var s1 := Apply(s, steps[0]);
    var s2 := Apply(s1, steps[1]);
    var s3 := Apply(s2, steps[2]);
    assert Exec(s, steps) == Exec(s1, steps[1..]);
    assert Exec(s1, steps[1..]) == Exec(s2, steps[1..][1..]) && steps[1..][1..] == steps[2..];
    assert Exec(s2, steps[2..]) == Exec(s3, steps[2..][1..]) && steps[2..][1..] == steps[3..];
    assert Exec(s3, steps[3..]) == Exec(Apply(s3, steps[3]), steps[3..][1..]) && steps[3..][1..] == [];
  }

  /** A current timer that fires on an open, idle service with a free gate releases the engine. */
  lemma CurrentTimerReleases(idleAfter: int, steps: seq<Step>)
    requires var s := Exec(Init(idleAfter), steps); Watched(s.flags) && !s.flags.closed && s.gate == Free
    ensures var s := Exec(Init(idleAfter), steps);
      var s2 := Exec(s, Firing(s));
      !s2.flags.demandLoaded && !s2.flags.manualPinned && s2.gate == Free
  {
    var s := Exec(Init(idleAfter), steps);
    var n, g := |s.stages|, s.flags.generation;
    ExecFour(s, Firing(s));
    var s1 := Apply(s, Begin(IdleWait(g)));
    assert s1.stages[n] == IdleWait(g);
    var s2 := Apply(s1, Acquire(n));
    assert s2.stages[n] == IdleGot(g) && s2.gate == Held(n);
    var s3 := Apply(s2, Enter(n, true, false, false));
    assert s3.stages[n] == IdleCalling(g);
  }

  /** A timer that finds the queue busy, or whose unload fails, looks again under the same generation. */
  lemma BusyTimerLooksAgain(idleAfter: int, steps: seq<Step>, id: nat, runner: bool)
    requires var s := Exec(Init(idleAfter), steps);
      id < |s.stages| && !s.flags.closed && !s.flags.manualPinned && s.flags.demandLoaded
      && (s.stages[id] == IdleGot(s.flags.generation) || s.stages[id] == IdleCalling(s.flags.generation))
    ensures var s := Exec(Init(idleAfter), steps);
      var s2 := if s.stages[id].IdleGot? then Apply(s, Enter(id, runner, false, true)) else Apply(s, Return(id, false, false, runner));
      Watched(s2.flags) && s2.flags.generation == s.flags.generation && s2.gate == Free
  {
  }

  /** A successful explicit unload leaves the engine neither pinned nor marked for release. */
  lemma UnloadClears(idleAfter: int, steps: seq<Step>, id: nat, loaded: bool, runner: bool)
    requires var s := Exec(Init(idleAfter), steps); id < |s.stages| && s.stages[id].UnloadCalling?
    ensures var s2 := Apply(Exec(Init(idleAfter), steps), Return(id, true, loaded, runner));
      !s2.flags.manualPinned && !s2.flags.demandLoaded && s2.gate == Free
  {
  }

  /** Every load, unload and stream that begins, every policy change and the shutdown outdate whatever timer is running. */
  lemma TimersOutdated(s: Service, id: nat, matches: bool, busy: bool, after: int, runner: bool)
    ensures id < |s.stages| && (s.stages[id].ExecGot? || s.stages[id].UnloadGot? || (s.stages[id].LoadGot? && !s.flags.closed)) ==>
      Apply(s, Enter(id, true, matches, busy)).flags.generation > s.flags.generation
    ensures Apply(s, SetIdle(after, runner)).flags.generation > s.flags.generation
    ensures Apply(s, SetIdle(after, runner)).flags.idleAfter == after
    ensures !s.flags.closed ==> Apply(s, Close).flags.generation > s.flags.generation && Apply(s, Close).flags.closed
  {
  }

  /** The run closes the service. */
  predicate Closes(steps: seq<Step>) {
    exists i :: 0 <= i < |steps| && steps[i].Close?
  }

  lemma {:induction false} ClosedFrom(s: Service, steps: seq<Step>)
    ensures Exec(s, steps).flags.closed <==> s.flags.closed || Closes(steps)
    decreases |steps|
  {
    if steps != [] {
      StepClosed(s, steps[0]);
      hide Apply;
      ClosedFrom(Apply(s, steps[0]), steps[1..]);
      assert forall i :: 0 <= i < |steps[1..]| ==> steps[1..][i] == steps[i + 1];
      assert forall i :: 1 <= i < |steps| ==> steps[i] == steps[1..][i - 1];
    }
  }

  lemma StepClosed(s: Service, step: Step)
    ensures Apply(s, step).flags.closed == (s.flags.closed || step.Close?)
  {
  }

  /** A service is closed exactly when the run closed it, and then for good. */
  lemma ClosedExactly(idleAfter: int, steps: seq<Step>)
    ensures Exec(Init(idleAfter), steps).flags.closed <==> Closes(steps)
  {
    ClosedFrom(Init(idleAfter), steps);
  }

  /** On a closed service nothing gets the gate, an explicit load that has it leaves, and no timer is armed or unloads. */
  lemma ClosedRefuses(s: Service, step: Step, id: nat)
    requires s.flags.closed
    ensures var s2 := Apply(s, step);
      && s2.flags.armed == s.flags.armed
      && (id < |s.stages| && Waits(s.stages[id]) ==> !InsideGate(s2.stages[id]))
      && (id < |s.stages| && s2.stages[id] != s.stages[id] ==> !s2.stages[id].LoadCalling? && !s2.stages[id].IdleCalling?)
  {
  }
}
