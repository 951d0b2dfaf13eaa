/**
 The lifecycle of the managed engine: a one-slot gate held across loads, unloads
 and streams, the owner's pin, demand loading, and idle timers whose callbacks may
 fire late. A run is any interleaving of requests, explicit loads and unloads,
 timer callbacks, policy changes and shutdown.
 */
module IdleUnload {

  /** What the state lock protects. `armed` records every generation a timer was armed for. */
  datatype Flags = Flags(
    generation: nat,
    armed: set<nat>,
    demandLoaded: bool,
    manualPinned: bool,
    closed: bool,
    idleAfter: int)

  function StopTimer(f: Flags): Flags {
    f.(generation := f.generation + 1)
  }

  function Arm(f: Flags, generation: nat): Flags {
    f.(armed := f.armed + {generation})
  }

  /** Any running timer is invalidated; a new one is armed for an unpinned demand-loaded engine. */
  function Schedule(f: Flags, runner: bool): Flags {
    var g := StopTimer(f);
    if g.closed || g.manualPinned || !g.demandLoaded || g.idleAfter < 0 || !runner then g else Arm(g, g.generation)
  }

  /** Where an activity stands; `Got` and later stages hold the gate. */
  datatype Stage =
    | ExecWait | ExecGot | ExecLoading(hadDemand: bool, hadPin: bool) | ExecStreaming
    | LoadWait | LoadGot | LoadCalling(hadDemand: bool)
    | UnloadWait | UnloadGot | UnloadCalling
    | IdleWait(generation: nat) | IdleGot(generation: nat) | IdleCalling(generation: nat)
    | Done

  predicate Waits(s: Stage) {
    s.ExecWait? || s.LoadWait? || s.UnloadWait? || s.IdleWait?
  }

  predicate InsideGate(s: Stage) {
    !Waits(s) && !s.Done?
  }

  /** The gate is free or held by one activity. */
  datatype Gate = Free | Held(holder: nat)

  datatype Service = Service(flags: Flags, gate: Gate, stages: seq<Stage>)

  datatype Step =
    | Begin(stage: Stage)                                   // a request, an explicit load or unload, or a timer callback
    | GiveUp(id: nat)                                       // its context ends while it waits
    | Acquire(id: nat)
    | Enter(id: nat, runner: bool, matches: bool, busy: bool) // the section right after acquiring
    | Return(id: nat, ok: bool, loaded: bool, runner: bool)   // the runner answers; for a stream `ok` says that it ran
    | SetIdle(after: int, runner: bool)
    | Close

  function Init(idleAfter: int): Service {
    Service(Flags(0, {}, false, false, false, idleAfter), Free, [])
  }

  function Got(s: Stage): Stage {
    match s
    case ExecWait => ExecGot
    case LoadWait => LoadGot
    case UnloadWait => UnloadGot
    case IdleWait(g) => IdleGot(g)
    case _ => s
  }

  function Leave(s: Service, id: nat, flags: Flags): Service
    requires id < |s.stages|
  {
    Service(flags, Free, s.stages[id := Done])
  }

  function Move(s: Service, id: nat, flags: Flags, stage: Stage): Service
    requires id < |s.stages|
  {
    Service(flags, s.gate, s.stages[id := stage])
  }

  /** The idle path may unload: nothing changed since its timer was armed and the engine is demand-loaded. */
  predicate MayUnload(f: Flags, generation: nat) {
    !f.closed && generation == f.generation && !f.manualPinned && f.demandLoaded
  }

  function AfterEnter(s: Service, id: nat, runner: bool, matches: bool, busy: bool): Service
    requires id < |s.stages|
  {
    var f := s.flags;
    match s.stages[id]
    case ExecGot =>
      if !runner then Leave(s, id, f)
      else if matches then
        Move(s, id, StopTimer(f).(demandLoaded := if f.manualPinned then f.demandLoaded else true), ExecStreaming)
      else
        Move(s, id, StopTimer(f).(demandLoaded := false, manualPinned := false), ExecLoading(f.demandLoaded, f.manualPinned))
    case LoadGot =>
      if !runner || f.closed then Leave(s, id, f)
      else Move(s, id, StopTimer(f).(manualPinned := true, demandLoaded := false), LoadCalling(f.demandLoaded))
    case UnloadGot =>
      if !runner then Leave(s, id, f) else Move(s, id, StopTimer(f), UnloadCalling)
    case IdleGot(g) =>
      if !MayUnload(f, g) then Leave(s, id, f)
      else if busy then Leave(s, id, Arm(f, g))
      else if !runner then Leave(s, id, f)
      else Move(s, id, f, IdleCalling(g))
    case _ => s
  }

  function AfterReturn(s: Service, id: nat, ok: bool, loaded: bool, runner: bool): Service
    requires id < |s.stages|
  {
    var f := s.flags;
    match s.stages[id]
    case ExecLoading(hadDemand, hadPin) =>
      if ok then Move(s, id, f.(demandLoaded := true, manualPinned := false), ExecStreaming)
      else if hadPin then Leave(s, id, f.(manualPinned := true))
      else if loaded || hadDemand then Leave(s, id, Schedule(f.(demandLoaded := true), runner))
      else Leave(s, id, f)
    case ExecStreaming => Leave(s, id, if ok then Schedule(f, runner) else f)
    case LoadCalling(hadDemand) =>
      if ok then Leave(s, id, f)
      else
        var g := f.(manualPinned := false, demandLoaded := loaded || hadDemand);
        Leave(s, id, if g.demandLoaded then Schedule(g, runner) else g)
    case UnloadCalling => Leave(s, id, if ok then f.(manualPinned := false, demandLoaded := false) else f)
    case IdleCalling(g) =>
      if ok then Leave(s, id, if g == f.generation && !f.closed && !f.manualPinned then f.(demandLoaded := false) else f)
      else Leave(s, id, if MayUnload(f, g) then Arm(f, g) else f)
    case _ => s
  }

  /** One step; a step that is not enabled changes nothing. */
  function Apply(s: Service, step: Step): Service {
    match step
    case Begin(stage) =>
      if !Waits(stage) || (stage.IdleWait? && stage.generation !in s.flags.armed) then s
      else s.(stages := s.stages + [stage])
    case GiveUp(id) =>
      if id < |s.stages| && Waits(s.stages[id]) then s.(stages := s.stages[id := Done]) else s
    case Acquire(id) =>
      if id >= |s.stages| || !Waits(s.stages[id]) || s.gate.Held? then s
      else if s.flags.closed then s.(stages := s.stages[id := Done])
      else Service(s.flags, Held(id), s.stages[id := Got(s.stages[id])])
    case Enter(id, runner, matches, busy) =>
      if id < |s.stages| then AfterEnter(s, id, runner, matches, busy) else s
    case Return(id, ok, loaded, runner) =>
      if id < |s.stages| then AfterReturn(s, id, ok, loaded, runner) else s
    case SetIdle(after, runner) => s.(flags := Schedule(s.flags.(idleAfter := after), runner))
    case Close => if s.flags.closed then s else s.(flags := StopTimer(s.flags.(closed := true)))
  }

  function Exec(s: Service, steps: seq<Step>): Service
    decreases |steps|
  {
    if steps == [] then s else Exec(Apply(s, steps[0]), steps[1..])
  }

  // ----- the invariant -----

  /** Exactly the holder of the gate is past acquiring it. */
  ghost predicate GateExclusive(s: Service) {
    && (s.gate.Held? ==> s.gate.holder < |s.stages| && InsideGate(s.stages[s.gate.holder]))
    && (forall id :: 0 <= id < |s.stages| && InsideGate(s.stages[id]) ==> s.gate == Held(id))
  }

  /** What the flags say while the holder is at a given stage. */
  ghost predicate FlagsFit(f: Flags, stage: Stage) {
    && !(f.manualPinned && f.demandLoaded)
    && (stage.ExecLoading? ==> !f.manualPinned && !f.demandLoaded && !(stage.hadPin && stage.hadDemand))
    && (stage.ExecStreaming? ==> f.manualPinned || f.demandLoaded)
    && (stage.LoadCalling? ==> f.manualPinned)
    && (stage.IdleCalling? ==> !f.manualPinned && f.demandLoaded && stage.generation <= f.generation)
  }

  ghost predicate Generations(s: Service) {
    && (forall g :: g in s.flags.armed ==> g <= s.flags.generation)
    && (forall id :: 0 <= id < |s.stages| && s.stages[id].IdleGot? ==> s.stages[id].generation <= s.flags.generation)
    && (forall id :: 0 <= id < |s.stages| && s.stages[id].IdleWait? ==> s.stages[id].generation <= s.flags.generation)
  }

  ghost predicate Inv(s: Service) {
    && GateExclusive(s) && Generations(s)
    && !(s.flags.manualPinned && s.flags.demandLoaded)
    && (s.gate.Held? ==> FlagsFit(s.flags, s.stages[s.gate.holder]))
  }

  lemma AcquireKeeps(s: Service, id: nat)
    requires Inv(s)
    ensures Inv(Apply(s, Acquire(id)))
  {
  }

  lemma EnterKeeps(s: Service, id: nat, runner: bool, matches: bool, busy: bool)
    requires Inv(s) && id < |s.stages|
    ensures Inv(AfterEnter(s, id, runner, matches, busy))
  {
    if InsideGate(s.stages[id]) { assert s.gate == Held(id); }
  }

  lemma ReturnKeeps(s: Service, id: nat, ok: bool, loaded: bool, runner: bool)
    requires Inv(s) && id < |s.stages|
    ensures Inv(AfterReturn(s, id, ok, loaded, runner))
  {
    if InsideGate(s.stages[id]) { assert s.gate == Held(id); }
  }

  lemma ApplyKeeps(s: Service, step: Step)
    requires Inv(s)
    ensures Inv(Apply(s, step))
  {
    match step
    case Begin(stage) =>
    case GiveUp(id) =>
    case Acquire(id) => AcquireKeeps(s, id);
    case Enter(id, runner, matches, busy) => if id < |s.stages| { EnterKeeps(s, id, runner, matches, busy); }
    case Return(id, ok, loaded, runner) => if id < |s.stages| { ReturnKeeps(s, id, ok, loaded, runner); }
    case SetIdle(after, runner) =>
    case Close =>
  }

  lemma {:induction false} ExecKeeps(s: Service, steps: seq<Step>)
    requires Inv(s)
    ensures Inv(Exec(s, steps))
    decreases |steps|
  {
    hide Inv, Apply;
    if steps != [] {
      ApplyKeeps(s, steps[0]);
      ExecKeeps(Apply(s, steps[0]), steps[1..]);
    }
  }

  // ----- what the owner relies on -----

  lemma InitInv(idleAfter: int)
    ensures Inv(Init(idleAfter))
  {
  }

  /** In no run is the engine both pinned by the owner and marked for idle release. */
  lemma NeverPinnedAndDemandLoaded(idleAfter: int, steps: seq<Step>)
    ensures var f := Exec(Init(idleAfter), steps).flags; !(f.manualPinned && f.demandLoaded)
  {
    InitInv(idleAfter);
    ExecKeeps(Init(idleAfter), steps);
  }

  /**
   For as long as an idle unload is in progress it holds the gate, the engine is
   unpinned and demand-loaded, and no stream, load or other unload is under way.
   */
  lemma IdleUnloadAlone(idleAfter: int, steps: seq<Step>, id: nat)
    requires var s := Exec(Init(idleAfter), steps); id < |s.stages| && s.stages[id].IdleCalling?
    ensures var s := Exec(Init(idleAfter), steps);
      && s.gate == Held(id) && !s.flags.manualPinned && s.flags.demandLoaded
      && forall j :: 0 <= j < |s.stages| && j != id ==> Waits(s.stages[j]) || s.stages[j].Done?
  {
    InitInv(idleAfter);
    ExecKeeps(Init(idleAfter), steps);
    var s := Exec(Init(idleAfter), steps);
    assert InsideGate(s.stages[id]);
  }

  /** No activity is unloading on behalf of a timer of this generation. */
  ghost predicate NotUnloading(s: Service, g: nat) {
    forall id :: 0 <= id < |s.stages| ==> s.stages[id] != IdleCalling(g)
  }

  lemma EnterKeepsStale(s: Service, id: nat, runner: bool, matches: bool, busy: bool, g: nat)
    requires id < |s.stages| && g < s.flags.generation && NotUnloading(s, g)
    ensures var t := AfterEnter(s, id, runner, matches, busy); g < t.flags.generation && NotUnloading(t, g)
  {
  }

  lemma ReturnKeepsStale(s: Service, id: nat, ok: bool, loaded: bool, runner: bool, g: nat)
    requires id < |s.stages| && g < s.flags.generation && NotUnloading(s, g)
    ensures var t := AfterReturn(s, id, ok, loaded, runner); g < t.flags.generation && NotUnloading(t, g)
  {
  }

  lemma StepKeepsStale(s: Service, step: Step, g: nat)
    requires g < s.flags.generation && NotUnloading(s, g)
    ensures g < Apply(s, step).flags.generation && NotUnloading(Apply(s, step), g)
  {
    hide AfterEnter, AfterReturn;
    match step
    case Enter(id, runner, matches, busy) =>
      if id < |s.stages| { EnterKeepsStale(s, id, runner, matches, busy, g); }
    case Return(id, ok, loaded, runner) =>
      if id < |s.stages| { ReturnKeepsStale(s, id, ok, loaded, runner, g); }
    case _ =>
  }

  /** A timer outdated by any load, unload, stream, policy change or shutdown never unloads, however late it fires. */
  lemma {:induction false} StaleTimerNeverUnloads(s: Service, steps: seq<Step>, g: nat)
    requires g < s.flags.generation && NotUnloading(s, g)
    ensures NotUnloading(Exec(s, steps), g)
    decreases |steps|
  {
    hide Apply, NotUnloading;
    if steps != [] {
      StepKeepsStale(s, steps[0], g);
      StaleTimerNeverUnloads(Apply(s, steps[0]), steps[1..], g);
    }
  }

  /** The activity streams and holds the gate, with the engine's flags as given. */
  ghost predicate Streaming(s: Service, id: nat, pinned: bool, demand: bool) {
    && id < |s.stages| && s.stages[id] == ExecStreaming && s.gate == Held(id)
    && s.flags.manualPinned == pinned && s.flags.demandLoaded == demand
  }

  lemma StepKeepsStream(s: Service, step: Step, id: nat, pinned: bool, demand: bool)
    requires Inv(s) && Streaming(s, id, pinned, demand) && !(step.Return? && step.id == id)
    ensures Streaming(Apply(s, step), id, pinned, demand)
  {
  }

  /** Until a stream ends nothing touches the engine it runs on: the gate stays its own and the flags stay put. */
  lemma {:induction false} StreamUndisturbed(s: Service, steps: seq<Step>, id: nat, pinned: bool, demand: bool)
    requires Inv(s) && Streaming(s, id, pinned, demand)
    requires forall i :: 0 <= i < |steps| ==> !(steps[i].Return? && steps[i].id == id)
    ensures Streaming(Exec(s, steps), id, pinned, demand)
    decreases |steps|
  {
    hide Apply, Inv, Streaming;
    if steps != [] {
      StepKeepsStream(s, steps[0], id, pinned, demand);
      ApplyKeeps(s, steps[0]);
      StreamUndisturbed(Apply(s, steps[0]), steps[1..], id, pinned, demand);
    }
  }
}
