/**
 What the admission queue promises over whole runs: slots are conserved, no
 slot idles while work waits, the owner's limits hold, members are served round
 robin with a bounded bypass, and one member's requests start in order.
 */
module FairQueueTheorems {
  import opened FairQueue
  import opened FairQueueInvariant

  // ----- reading facts off the invariant -----

  lemma WaitingFact(q: Queue, calls: seq<Call>, m: string, i: nat)
    requires Consistent(q, calls) && i < |q.Waiting(m)|
    ensures IsWaiting(q, calls, m, q.Waiting(m)[i])
  {
  }

  lemma TotalsFact(q: Queue, calls: seq<Call>)
    requires Consistent(q, calls)
    ensures q.totalQueued >= 0 && (q.totalQueued > 0 <==> q.rotation != []) && (q.totalQueued > 0 <==> q.queues.Keys != {})
    ensures forall m :: m in q.rotation <==> m in q.queues
  {
    NothingQueued(q);
    assert forall m :: m in q.rotation <==> m in q.queues.Keys;
  }

  lemma AccountedFact(q: Queue, calls: seq<Call>, id: nat)
    requires Consistent(q, calls) && id < |calls|
    ensures Accounted(q, calls, id)
  {
  }

  /** In a consistent state a dispatch starts the oldest item of the member at the head. */
  lemma DispatchOneStarts(q: Queue, calls: seq<Call>)
    requires Consistent(q, calls) && CanDispatch(q)
    ensures q.rotation[0] in q.queues && q.queues[q.rotation[0]] != []
    ensures IsWaiting(q, calls, q.rotation[0], q.queues[q.rotation[0]][0])
    ensures DispatchOne(q).started == q.started + [q.queues[q.rotation[0]][0]]
  {
  }

  // ----- slot conservation -----

  /** The items holding or waiting for a slot. */
  function Live(q: Queue): set<Item> {
    (set k | k in q.activeItems :: q.activeItems[k]) + AllQueued(q)
  }

  /** In every reachable state the redundant counters equal the tables they summarise. */
  lemma CountersAgree(limits: Limits, steps: seq<Step>)
    ensures var q := Exec(Init(limits), steps).q;
      && q.activeCount == |q.activeItems|
      && q.totalQueued == |AllQueued(q)|
      && (forall m :: q.Depth(m) == |q.Waiting(m)|)
      && (forall m :: m in q.rotation <==> q.Waiting(m) != [])
      && (forall i, j :: 0 <= i < j < |q.rotation| ==> q.rotation[i] != q.rotation[j])
  {
    hide Queued, QueuesOrdered, Active, Phases, Started, StartOrder, StartedBefore, Released;
    InitInv(limits);
    ExecKeeps(Init(limits), steps);
    var q := Exec(Init(limits), steps).q;
    forall m ensures m in q.rotation <==> q.Waiting(m) != [] {
      assert m in q.rotation <==> m in q.queues.Keys;
    }
  }

  /** No two live items share a member and request id. */
  lemma RequestKeysUnique(limits: Limits, steps: seq<Step>, a: Item, b: Item)
    requires a in Live(Exec(Init(limits), steps).q) && b in Live(Exec(Init(limits), steps).q)
    requires KeyOf(a) == KeyOf(b)
    ensures a == b
  {
    InitInv(limits);
    ExecKeeps(Init(limits), steps);
    var s := Exec(Init(limits), steps);
    var q := s.q;
    LiveCases(q, s.calls, a);
    LiveCases(q, s.calls, b);
    if !HoldsSlot(q.activeItems, a) && !HoldsSlot(q.activeItems, b) {
      assert Ordered(q.queues[a.member]);
    }
  }

  lemma LiveCases(q: Queue, calls: seq<Call>, it: Item)
    requires Consistent(q, calls) && it in Live(q)
    ensures HoldsSlot(q.activeItems, it) || (it.member in q.queues && it in q.queues[it.member] && KeyOf(it) !in q.activeItems)
  {
  }

  /**
   Charges and releases balance in every reachable state: each item is charged at
   most once, released at most once and only after its work returned, and what was
   charged and not released is exactly the active table.
   */
  lemma SlotsBalance(limits: Limits, steps: seq<Step>)
    ensures var s := Exec(Init(limits), steps);
      && s.q.activeCount == |s.q.started| - |s.q.released|
      && (forall i, j :: 0 <= i < j < |s.q.started| ==> s.q.started[i] != s.q.started[j])
      && (forall i, j :: 0 <= i < j < |s.q.released| ==> s.q.released[i] != s.q.released[j])
      && (forall it :: it in s.q.started <==> it in s.q.released || HoldsSlot(s.q.activeItems, it))
      && (forall it :: it in s.q.released ==> !HoldsSlot(s.q.activeItems, it))
  {
    InitInv(limits);
    ExecKeeps(Init(limits), steps);
    var s := Exec(Init(limits), steps);
    forall it ensures it in s.q.started <==> it in s.q.released || HoldsSlot(s.q.activeItems, it)
      ensures it in s.q.released ==> !HoldsSlot(s.q.activeItems, it)
    {
      StartedIsReleasedOrActive(s.q, s.calls, it);
    }
  }

  lemma StartedIsReleasedOrActive(q: Queue, calls: seq<Call>, it: Item)
    requires Consistent(q, calls)
    ensures it in q.started <==> it in q.released || HoldsSlot(q.activeItems, it)
    ensures it in q.released ==> !HoldsSlot(q.activeItems, it)
  {
    if it in q.started {
      assert Known(calls, it) && it.id in q.dispatched;
    }
    if it in q.released {
      assert Known(calls, it) && calls[it.id].phase == Returned(Ran);
      assert Accounted(q, calls, it.id);
    }
  }

  /** Removing the item takes it out of its queue and lowers both counters by one, without a clamp. */
  predicate LeavesCleanly(q: Queue, it: Item) {
    it.id !in q.removed && it in q.Waiting(it.member) && q.Depth(it.member) - 1 >= 0 && q.totalQueued - 1 >= 0
  }

  lemma QueuedLeavesCleanly(q: Queue, calls: seq<Call>, m: string, i: nat)
    requires Consistent(q, calls) && i < |q.Waiting(m)|
    ensures LeavesCleanly(q, q.Waiting(m)[i])
  {
    hide Queued, QueuesOrdered, Active, Phases, Started, StartOrder, StartedBefore, Released;
    WaitingFact(q, calls, m, i);
    NothingQueued(q);
  }

  lemma FirstCancelled(q: Queue, calls: seq<Call>, m: string)
    requires Consistent(q, calls) && q.Waiting(m) != []
    ensures var q1 := CancelOne(q, q.Waiting(m)[0]); Consistent(q1, calls) && q1.Waiting(m) == q.Waiting(m)[1..]
  {
    hide Consistent;
    CancelOneKeeps(q, 0, m, calls);
    WaitingFact(q, calls, m, 0);
    assert Without(q.Waiting(m), q.Waiting(m)[0]) == q.Waiting(m)[1..];
  }

  lemma CancelEachFrom(q: Queue, items: seq<Item>, k: nat)
    requires k <= |items|
    ensures k == 0 ==> CancelEach(q, items[..k]) == q && items[k..] == items
    ensures k > 0 ==>
      CancelEach(q, items[..k]) == CancelEach(CancelOne(q, items[0]), items[1..][..k - 1]) && items[1..][k - 1..] == items[k..]
  {
    hide CancelOne;
    if k > 0 { assert items[..k][1..] == items[1..][..k - 1]; }
  }

  /** While a member's queue is being cancelled, what is left of it is still its queue. */
  lemma {:induction false} CancelledSoFar(q: Queue, calls: seq<Call>, m: string, k: nat)
    requires Consistent(q, calls) && k <= |q.Waiting(m)|
    ensures var q2 := CancelEach(q, q.Waiting(m)[..k]); Consistent(q2, calls) && q2.Waiting(m) == q.Waiting(m)[k..]
    decreases k
  {
    hide Consistent, CancelOne, CancelEach;
    var items := q.Waiting(m);
    CancelEachFrom(q, items, k);
    if k > 0 {
      FirstCancelled(q, calls, m);
      CancelledSoFar(CancelOne(q, items[0]), calls, m, k - 1);
    }
  }

  /**
   The guards against counters falling below zero never act, on any of their paths:
   a call about to give back its slot holds one; a waiter about to leave, an item
   about to be cancelled, and each item in turn of a member about to be cancelled is
   really in its queue.
   */
  lemma ClampsNeverFire(limits: Limits, steps: seq<Step>, id: nat, m: string, k: nat)
    ensures var s := Exec(Init(limits), steps);
      InPhase(s, id, Running) ==>
        HoldsSlot(s.q.activeItems, s.calls[id].item) && s.q.activeCount - 1 >= 0
    ensures var s := Exec(Init(limits), steps);
      InPhase(s, id, Waiting) && id !in s.q.dispatched && id !in s.q.removed ==> LeavesCleanly(s.q, s.calls[id].item)
    ensures var q := Exec(Init(limits), steps).q;
      k < |q.Waiting(m)| ==> LeavesCleanly(q, q.Waiting(m)[k])
    ensures var q := Exec(Init(limits), steps).q;
      var q1 := q.(cancelled := q.cancelled + ActiveOf(q, m));
      k < |q.Waiting(m)| ==> LeavesCleanly(CancelEach(q1, q.Waiting(m)[..k]), q.Waiting(m)[k])
  {
    hide Consistent, LeavesCleanly, ActiveOf, CancelEach;
    InitInv(limits);
    ExecKeeps(Init(limits), steps);
    var s := Exec(Init(limits), steps);
    var q := s.q;
    if InPhase(s, id, Running) { SlotHeld(q, s.calls, id); }
    if InPhase(s, id, Waiting) && id !in q.dispatched && id !in q.removed {
      AccountedFact(q, s.calls, id);
      var it := s.calls[id].item;
      var i :| 0 <= i < |q.Waiting(it.member)| && q.Waiting(it.member)[i] == it;
      QueuedLeavesCleanly(q, s.calls, it.member, i);
    }
    if k < |q.Waiting(m)| {
      QueuedLeavesCleanly(q, s.calls, m, k);
      var q1 := q.(cancelled := q.cancelled + ActiveOf(q, m));
      CancelledIrrelevant(q, q1.cancelled, q1.closed, s.calls);
      assert q1.Waiting(m) == q.Waiting(m);
      CancelledSoFar(q1, s.calls, m, k);
      QueuedLeavesCleanly(CancelEach(q1, q.Waiting(m)[..k]), s.calls, m, 0);
    }
  }

  lemma SlotHeld(q: Queue, calls: seq<Call>, id: nat)
    requires Consistent(q, calls) && id < |calls| && calls[id].phase == Running
    ensures HoldsSlot(q.activeItems, calls[id].item) && q.activeCount - 1 >= 0
  {
    hide Queued, QueuesOrdered, Phases, Started, StartOrder, StartedBefore, Released;
    RunningHoldsSlot(q, calls, id);
  }

  /** When every call has returned nothing is left behind: no slot, no queue entry, no rotation entry. */
  lemma NothingLeaks(limits: Limits, steps: seq<Step>)
    requires forall id :: 0 <= id < |Exec(Init(limits), steps).calls| ==> Exec(Init(limits), steps).calls[id].phase.Returned?
    ensures var q := Exec(Init(limits), steps).q;
      q.activeCount == 0 && q.totalQueued == 0 && q.rotation == [] && q.queues == map[] && q.memberQueued == map[]
      && |q.started| == |q.released|
  {
    InitInv(limits);
    ExecKeeps(Init(limits), steps);
    var s := Exec(Init(limits), steps);
    var q := s.q;
    assert q.activeItems.Keys == {} by {
      forall k | k in q.activeItems ensures false { ActiveUnreturned(q, s.calls, k); }
    }
    assert q.queues.Keys == {} by {
      forall m | m in q.queues ensures false {
        QueuedHead(q, s.calls, m);
      }
    }
    NothingQueued(q);
  }

  lemma ActiveUnreturned(q: Queue, calls: seq<Call>, k: Key)
    requires Consistent(q, calls) && k in q.activeItems
    ensures Known(calls, q.activeItems[k]) && !calls[q.activeItems[k].id].phase.Returned?
  {
  }

  lemma QueuedHead(q: Queue, calls: seq<Call>, m: string)
    requires Consistent(q, calls) && m in q.queues
    ensures q.queues[m] != [] && IsWaiting(q, calls, m, q.queues[m][0])
  {
  }

  /** A call returns as run exactly when it was started; one that timed out or was cancelled never was. */
  lemma StartedExactlyWhenRun(limits: Limits, steps: seq<Step>, id: nat)
    requires id < |Exec(Init(limits), steps).calls| && Exec(Init(limits), steps).calls[id].phase.Returned?
    ensures var s := Exec(Init(limits), steps);
      s.calls[id].item in s.q.started <==> s.calls[id].phase == Returned(Ran)
  {
    InitInv(limits);
    ExecKeeps(Init(limits), steps);
    var s := Exec(Init(limits), steps);
    assert Accounted(s.q, s.calls, id);
    if s.calls[id].item in s.q.started {
      assert Known(s.calls, s.calls[id].item) && id in s.q.dispatched;
    }
  }

  /** One member's requests start in the order they were submitted. */
  lemma MemberStartsInOrder(limits: Limits, steps: seq<Step>, i: nat, j: nat)
    requires i < j < |Exec(Init(limits), steps).q.started|
    requires Exec(Init(limits), steps).q.started[i].member == Exec(Init(limits), steps).q.started[j].member
    ensures Exec(Init(limits), steps).q.started[i].id < Exec(Init(limits), steps).q.started[j].id
  {
    InitInv(limits);
    ExecKeeps(Init(limits), steps);
  }

  // ----- work conservation and limits -----

  /** After every step, waiting work means every allowed slot is taken, and someone holding one has yet to return. */
  lemma WorkConserved(limits: Limits, steps: seq<Step>)
    ensures var s := Exec(Init(limits), steps);
      s.q.totalQueued > 0 ==>
        && s.q.activeCount >= s.q.limits.maxActive
        && exists id :: 0 <= id < |s.calls| && id in s.q.dispatched && !s.calls[id].phase.Returned?
  {
    InitInv(limits);
    ExecKeeps(Init(limits), steps);
    var s := Exec(Init(limits), steps);
    if s.q.totalQueued > 0 {
      assert |s.q.activeItems.Keys| > 0;
      var k :| k in s.q.activeItems.Keys;
      assert Known(s.calls, s.q.activeItems[k]);
    }
  }

  /** A step that starts work ends within the active limit in force after it. */
  lemma StartsWithinLimit(s: System, step: Step)
    requires Inv(s)
    ensures s.q.started <= Apply(s, step).q.started
    ensures Apply(s, step).q.started != s.q.started ==> Apply(s, step).q.activeCount <= Apply(s, step).q.limits.maxActive
  {
    hide Consistent;
    var q := s.q;
    match step
    case Finish(id) =>
      if InPhase(s, id, Running) { DispatchWithinLimits(Release(q, s.calls[id].item)); }
    case Cancel(key) =>
      var items := q.Waiting(key.member);
      var i := FindRequest(items, key.request);
      if key !in q.activeItems && i < |items| { DispatchWithinLimits(CancelOne(q, items[i])); }
    case CancelMember(m) =>
      var q1 := q.(cancelled := q.cancelled + ActiveOf(q, m));
      CancelEachFrame(q1, q1.Waiting(m));
      DispatchWithinLimits(CancelEach(q1, q1.Waiting(m)));
    case SetLimits(l) =>
      DispatchWithinLimits(q.(limits := NormalizeLimits(l)));
    case _ =>
  }

  lemma {:induction false} CancelEachFrame(q: Queue, items: seq<Item>)
    ensures CancelEach(q, items).started == q.started && CancelEach(q, items).limits == q.limits
    ensures CancelEach(q, items).activeCount == q.activeCount && CancelEach(q, items).closed == q.closed
    decreases items
  {
    if items != [] { CancelEachFrame(CancelOne(q, items[0]), items[1..]); }
  }

  /** Only Submit adds waiting work, and it leaves both queue depths within the limits. */
  lemma EnqueuesWithinLimits(s: System, step: Step)
    requires Inv(s)
    requires Apply(s, step).q.totalQueued > s.q.totalQueued
    ensures step.Submit?
    ensures var q := Apply(s, step).q;
      q.totalQueued <= q.limits.maxQueuedTotal && q.Depth(step.key.member) <= q.limits.maxQueuedPerMember
  {
    hide Consistent;
    var q := s.q;
    TotalsFact(q, s.calls);
    match step
    case Finish(id) =>
      if InPhase(s, id, Running) { DispatchDrains(Release(q, s.calls[id].item)); }
    case Cancel(key) =>
      var items := q.Waiting(key.member);
      var i := FindRequest(items, key.request);
      if key !in q.activeItems && i < |items| {
        CancelOneKeeps(q, i, key.member, s.calls);
        DispatchDrains(CancelOne(q, items[i]));
      }
    case CancelMember(m) =>
      var q1 := q.(cancelled := q.cancelled + ActiveOf(q, m));
      CancelEachDrains(q1, q1.Waiting(m));
      DispatchDrains(CancelEach(q1, q1.Waiting(m)));
    case SetLimits(l) =>
      DispatchDrains(q.(limits := NormalizeLimits(l)));
    case _ =>
  }

  lemma {:induction false} DispatchDrains(q: Queue)
    ensures Dispatch(q).totalQueued <= q.totalQueued
    ensures Dispatch(q).queues.Keys <= q.queues.Keys
    decreases q.totalQueued, |q.rotation|
  {
    if CanDispatch(q) {
      DispatchDrains(DispatchOne(q));
      assert DispatchOne(q).queues.Keys <= q.queues.Keys;
    }
  }

  lemma {:induction false} CancelEachDrains(q: Queue, items: seq<Item>)
    requires q.totalQueued >= 0
    ensures 0 <= CancelEach(q, items).totalQueued <= q.totalQueued
    decreases items
  {
    if items != [] { CancelEachDrains(CancelOne(q, items[0]), items[1..]); }
  }

  // ----- bounded bypass -----

  predicate NoStart(log: seq<Item>, m: string) {
    forall i :: 0 <= i < |log| ==> log[i].member != m
  }

  function NewStarts(q: Queue, q2: Queue): seq<Item>
    requires q.started <= q2.started
  {
    q2.started[|q.started|..]
  }

  predicate At(q: Queue, m: string, p: int) {
    0 <= p < |q.rotation| && q.rotation[p] == m
  }

  /**
   From `q`, where `m` waits at rotation index `p`, to `q2`: the new starts begin
   with at most `p` of other members, and if none is `m`'s then `m` has moved up
   by at least as many places.
   */
  ghost predicate Advances(q: Queue, q2: Queue, m: string, p: nat) {
    && q.started <= q2.started
    && var log := NewStarts(q, q2);
       && (forall k :: 0 <= k <= |log| && NoStart(log[..k], m) ==> k <= p)
       && (NoStart(log, m) ==> exists p2 :: At(q2, m, p2) && p2 + |log| <= p)
  }

  lemma DispatchOneAdvances(q: Queue, calls: seq<Call>, m: string, p: nat)
    requires Consistent(q, calls) && CanDispatch(q) && At(q, m, p)
    ensures p > 0 ==> At(DispatchOne(q), m, p - 1) && q.rotation[0] != m
  {
    HeadHasWork(q);
  }

  lemma {:induction false} DispatchAdvances(q: Queue, calls: seq<Call>, m: string, p: nat)
    requires Consistent(q, calls) && At(q, m, p)
    ensures Advances(q, Dispatch(q), m, p)
    decreases q.totalQueued, |q.rotation|
  {
    hide Consistent;
    var q2 := Dispatch(q);
    if !CanDispatch(q) {
      NoNewStarts(q, q2, m, p, p);
    } else {
      var q1 := DispatchOne(q);
      DispatchOneStarts(q, calls);
      DispatchOneAdvances(q, calls, m, p);
      if p > 0 {
        DispatchOneKeeps(q, calls);
        DispatchAdvances(q1, calls, m, p - 1);
        OneMoreStart(q, q1, q2, q.queues[q.rotation[0]][0], m, p);
      } else {
        DispatchWithinLimits(q1);
        HeadServed(q, q2, q.queues[q.rotation[0]][0], m);
      }
    }
  }

  lemma HeadServed(q: Queue, q2: Queue, it: Item, m: string)
    requires q.started + [it] <= q2.started && it.member == m
    ensures Advances(q, q2, m, 0)
  {
    var log := NewStarts(q, q2);
    assert log[0] == it;
    assert forall k :: 0 < k <= |log| ==> log[..k][0].member == m;
  }

  lemma OneMoreStart(q: Queue, q1: Queue, q2: Queue, it: Item, m: string, p: nat)
    requires p > 0 && q1.started == q.started + [it] && it.member != m && Advances(q1, q2, m, p - 1)
    ensures Advances(q, q2, m, p)
  {
    var log, log1 := NewStarts(q, q2), NewStarts(q1, q2);
    assert log == [it] + log1;
    LogStep(log, log1, it, m, p);
    if NoStart(log, m) {
      assert forall i :: 0 <= i < |log1| ==> log1[i] == log[i + 1];
      var p2 :| At(q2, m, p2) && p2 + |log1| <= p - 1;
      assert At(q2, m, p2) && p2 + |log| <= p;
    }
  }

  lemma LogStep(log: seq<Item>, log1: seq<Item>, it: Item, m: string, p: nat)
    requires log == [it] + log1 && p > 0
    requires forall k :: 0 <= k <= |log1| && NoStart(log1[..k], m) ==> k <= p - 1
    ensures forall k :: 0 <= k <= |log| && NoStart(log[..k], m) ==> k <= p
  {
    forall k | 0 < k <= |log| && NoStart(log[..k], m) ensures k <= p {
      assert log1[..k - 1] == log[..k][1..];
      assert NoStart(log1[..k - 1], m);
    }
  }

  /** A member with nothing waiting is neither dispatched nor queued by dispatch. */
  lemma {:induction false} DispatchAbsent(q: Queue, calls: seq<Call>, m: string)
    requires Consistent(q, calls) && m !in q.queues
    ensures q.started <= Dispatch(q).started && NoStart(NewStarts(q, Dispatch(q)), m) && m !in Dispatch(q).queues
    decreases q.totalQueued, |q.rotation|
  {
    hide Consistent;
    DispatchWithinLimits(q);
    if CanDispatch(q) {
      DispatchOneStarts(q, calls);
      DispatchOneKeeps(q, calls);
      assert m !in DispatchOne(q).queues;
      DispatchAbsent(DispatchOne(q), calls, m);
      OtherStarts(q, DispatchOne(q), Dispatch(q), q.queues[q.rotation[0]][0], m);
    }
  }

  lemma OtherStarts(q: Queue, q1: Queue, q2: Queue, it: Item, m: string)
    requires q1.started == q.started + [it] && q1.started <= q2.started && it.member != m && NoStart(NewStarts(q1, q2), m)
    ensures q.started <= q2.started && NoStart(NewStarts(q, q2), m)
  {
  }

  /** Removing other members' items never moves `m` back; removing its last item takes it out. */
  lemma WithoutPosition(rotation: seq<string>, members: set<string>, x: string, p: nat) returns (p2: nat)
    requires Rotation(rotation, members) && x in members && p < |rotation| && rotation[p] != x
    ensures p2 <= p && p2 < |Without(rotation, x)| && Without(rotation, x)[p2] == rotation[p]
  {
    assert x in rotation;
    var i :| 0 <= i < |rotation| && rotation[i] == x;
    WithoutAt(rotation, x, i);
    p2 := if p < i then p else p - 1;
  }

  lemma RemoveAdvances(q: Queue, calls: seq<Call>, it: Item, k: nat, m: string, p: nat)
    requires Consistent(q, calls) && At(q, m, p)
    requires it.member in q.queues && k < |q.queues[it.member]| && q.queues[it.member][k] == it
    ensures m !in Remove(q, it).queues || exists p2 :: At(Remove(q, it), m, p2) && p2 <= p
  {
    hide Rotation, Counters, Queued, QueuesOrdered, Active, Phases, Started, StartOrder, StartedBefore, Released;
    RemoveIsTakenOut(q, it, k, calls);
    if Remove(q, it).rotation == q.rotation {
      assert At(Remove(q, it), m, p);
    } else if it.member != m {
      var p2 := WithoutPosition(q.rotation, q.queues.Keys, it.member, p);
      assert At(Remove(q, it), m, p2);
    }
  }

  lemma CancelOneAdvances(q: Queue, calls: seq<Call>, x: string, m: string, p: nat) returns (p1: nat)
    requires Consistent(q, calls) && At(q, m, p) && x != m && q.Waiting(x) != []
    ensures var q1 := CancelOne(q, q.Waiting(x)[0]);
      Consistent(q1, calls) && q1.Waiting(x) == q.Waiting(x)[1..] && At(q1, m, p1) && p1 <= p
  {
    hide Consistent;
    var it := q.Waiting(x)[0];
    CancelOneKeeps(q, 0, x, calls);
    WaitingFact(q, calls, x, 0);
    RemoveAdvances(q, calls, it, 0, m, p);
    assert Without(q.Waiting(x), it) == q.Waiting(x)[1..];
    assert m in Remove(q, it).queues by {
      assert m in q.rotation;
      TotalsFact(q, calls);
    }
    p1 :| At(Remove(q, it), m, p1) && p1 <= p;
  }

  lemma {:induction false} CancelEachAdvances(q: Queue, calls: seq<Call>, x: string, m: string, p: nat)
    requires Consistent(q, calls) && At(q, m, p) && x != m
    ensures exists p2 :: At(CancelEach(q, q.Waiting(x)), m, p2) && p2 <= p
    decreases |q.Waiting(x)|
  {
    hide Consistent, CancelOne;
    var items := q.Waiting(x);
    if items == [] {
      assert At(CancelEach(q, items), m, p);
    } else {
      var p1 := CancelOneAdvances(q, calls, x, m, p);
      var q1 := CancelOne(q, items[0]);
      CancelEachAdvances(q1, calls, x, m, p1);
      var p2 :| At(CancelEach(q1, q1.Waiting(x)), m, p2) && p2 <= p1;
      assert At(CancelEach(q, items), m, p2);
    }
  }

  /** Dispatch after a change that left `m` no worse off. */
  lemma ThenDispatch(q: Queue, q1: Queue, calls: seq<Call>, m: string, p: nat)
    requires Consistent(q1, calls) && q1.started == q.started
    requires m !in q1.queues || exists p1 :: At(q1, m, p1) && p1 <= p
    requires Stays(q, Dispatch(q1), m)
    ensures Advances(q, Dispatch(q1), m, p)
  {
    hide Consistent;
    DispatchWithinLimits(q1);
    var q2 := Dispatch(q1);
    assert NewStarts(q, q2) == NewStarts(q1, q2);
    if m !in q1.queues {
      DispatchAbsent(q1, calls, m);
    } else {
      var p1 :| At(q1, m, p1) && p1 <= p;
      DispatchAdvances(q1, calls, m, p1);
      assert NewStarts(q, q2) == NewStarts(q1, q2);
      if NoStart(NewStarts(q, q2), m) {
        var p2 :| At(q2, m, p2) && p2 + |NewStarts(q1, q2)| <= p1;
        assert At(q2, m, p2) && p2 + |NewStarts(q, q2)| <= p;
      }
    }
  }

  /** `m` was served on the way to `q2`, or still waits there. */
  predicate Stays(q: Queue, q2: Queue, m: string) {
    q.started <= q2.started && (m in q2.queues || !NoStart(NewStarts(q, q2), m))
  }

  lemma NoNewStarts(q: Queue, q2: Queue, m: string, p: nat, p2: nat)
    requires q2.started == q.started && At(q2, m, p2) && p2 <= p
    ensures Advances(q, q2, m, p)
  {
  }

  lemma CancelAdvances(s: System, key: Key, m: string, p: nat)
    requires Inv(s) && At(s.q, m, p) && Stays(s.q, AfterCancel(s.q, key), m)
    ensures Advances(s.q, AfterCancel(s.q, key), m, p)
  {
    hide Consistent;
    var q := s.q;
    var items := q.Waiting(key.member);
    var i := FindRequest(items, key.request);
    if key in q.activeItems || i == |items| {
      NoNewStarts(q, AfterCancel(q, key), m, p, p);
    } else {
      var it := items[i];
      WaitingFact(q, s.calls, key.member, i);
      CancelOneKeeps(q, i, key.member, s.calls);
      RemoveAdvances(q, s.calls, it, i, m, p);
      var q1 := CancelOne(q, it);
      if m in q1.queues {
        var p2 :| At(Remove(q, it), m, p2) && p2 <= p;
        assert At(q1, m, p2);
      }
      ThenDispatch(q, q1, s.calls, m, p);
    }
  }

  lemma CancelMemberAdvances(s: System, x: string, m: string, p: nat)
    requires Inv(s) && At(s.q, m, p) && Stays(s.q, AfterCancelMember(s.q, x), m)
    ensures Advances(s.q, AfterCancelMember(s.q, x), m, p)
  {
    hide Consistent;
    var q1 := s.q.(cancelled := s.q.cancelled + ActiveOf(s.q, x));
    CancelledIrrelevant(s.q, q1.cancelled, q1.closed, s.calls);
    CancelEachKeeps(q1, x, s.calls);
    CancelEachFrame(q1, q1.Waiting(x));
    var q2 := CancelEach(q1, q1.Waiting(x));
    if x != m {
      assert At(q1, m, p);
      CancelEachAdvances(q1, s.calls, x, m, p);
    }
    ThenDispatch(s.q, q2, s.calls, m, p);
  }

  lemma FinishAdvances(s: System, id: nat, m: string, p: nat)
    requires Inv(s) && At(s.q, m, p) && InPhase(s, id, Running)
    requires Stays(s.q, AfterExecute(s.q, s.calls[id].item), m)
    ensures Advances(s.q, AfterExecute(s.q, s.calls[id].item), m, p)
  {
    hide Consistent;
    var it := s.calls[id].item;
    var q1 := Release(s.q, it);
    var calls2 := s.calls[id := Call(it, Returned(Ran))];
    ReleaseKeeps(s.q, s.calls, id);
    assert At(q1, m, p);
    DispatchWithinLimits(q1);
    var q2 := Dispatch(q1);
    var q3 := AfterExecute(s.q, it);
    assert q3 == q2.(cancelled := q2.cancelled + {it.id});
    assert NewStarts(s.q, q3) == NewStarts(s.q, q2);
    ThenDispatch(s.q, q1, calls2, m, p);
    if NoStart(NewStarts(s.q, q3), m) {
      var p2 :| At(q2, m, p2) && p2 + |NewStarts(s.q, q2)| <= p;
      assert At(q3, m, p2);
    }
  }

  lemma AbandonAdvances(s: System, id: nat, why: Outcome, m: string, p: nat)
    requires Inv(s) && At(s.q, m, p) && InPhase(s, id, Waiting) && Stays(s.q, Abandon(s, id, why).q, m)
    ensures Advances(s.q, Abandon(s, id, why).q, m, p)
  {
    hide Consistent;
    var it := s.calls[id].item;
    var q2 := Abandon(s, id, why).q;
    AccountedFact(s.q, s.calls, id);
    if id in s.q.dispatched || id in s.q.removed {
      NoNewStarts(s.q, q2, m, p, p);
    } else {
      var k :| 0 <= k < |s.q.Waiting(it.member)| && s.q.Waiting(it.member)[k] == it;
      RemoveAdvances(s.q, s.calls, it, k, m, p);
      assert NewStarts(s.q, q2) == [];
      var p2 :| At(Remove(s.q, it), m, p2) && p2 <= p;
      NoNewStarts(s.q, q2, m, p, p2);
    }
  }

  lemma StepAdvances(s: System, step: Step, m: string, p: nat)
    requires Inv(s) && At(s.q, m, p) && Stays(s.q, Apply(s, step).q, m)
    ensures Advances(s.q, Apply(s, step).q, m, p)
  {
    hide Consistent;
    var q := s.q;
    match step
    case Submit(key) =>
      // with `m` waiting the immediate path is closed, so nobody overtakes it here
      TotalsFact(q, s.calls);
      NoNewStarts(q, AfterSubmit(q, key), m, p, p);
    case Wake(id) => NoNewStarts(q, Apply(s, step).q, m, p, p);
    case Expire(id) =>
      if InPhase(s, id, Waiting) { AbandonAdvances(s, id, TimedOut, m, p); } else { NoNewStarts(q, q, m, p, p); }
    case Done(id) =>
      if InPhase(s, id, Waiting) { AbandonAdvances(s, id, Cancelled, m, p); } else { NoNewStarts(q, q, m, p, p); }
    case Finish(id) =>
      if InPhase(s, id, Running) { FinishAdvances(s, id, m, p); } else { NoNewStarts(q, q, m, p, p); }
    case Cancel(key) => CancelAdvances(s, key, m, p);
    case CancelMember(x) => CancelMemberAdvances(s, x, m, p);
    case SetLimits(l) =>
      var q1 := q.(limits := NormalizeLimits(l));
      LimitsIrrelevant(q, NormalizeLimits(l), s.calls);
      assert At(q1, m, p);
      ThenDispatch(q, q1, s.calls, m, p);
    case Close => NoNewStarts(q, AfterClose(q), m, p, p);
  }

  lemma {:induction false} ExecExtendsLog(s: System, steps: seq<Step>)
    requires Inv(s)
    ensures s.q.started <= Exec(s, steps).q.started
    decreases |steps|
  {
    hide Consistent;
    if steps != [] {
      StartsWithinLimit(s, steps[0]);
      ApplyKeeps(s, steps[0]);
      ExecExtendsLog(Apply(s, steps[0]), steps[1..]);
    }
  }

  /** After every prefix of the run, `m` has been served or still waits. */
  predicate KeepsWaiting(s: System, steps: seq<Step>, m: string) {
    forall i :: 0 <= i <= |steps| ==> Stays(s.q, Exec(s, steps[..i]).q, m)
  }

  /** Every run of starts without `m` at the head of the log is at most `p` long. */
  ghost predicate HeadBound(log: seq<Item>, m: string, p: int) {
    forall k :: 0 <= k <= |log| && NoStart(log[..k], m) ==> k <= p
  }

  /** If `m` starts in the first part of the log, the second part does not matter. */
  lemma HeadBoundServed(log0: seq<Item>, log1: seq<Item>, m: string, p: int)
    requires HeadBound(log0, m, p) && !NoStart(log0, m)
    ensures HeadBound(log0 + log1, m, p)
  {
    var log := log0 + log1;
    var i :| 0 <= i < |log0| && log0[i].member == m;
    assert forall k :: i < k <= |log| ==> log[..k][i].member == m;
    forall k | 0 <= k <= |log| && NoStart(log[..k], m) ensures k <= p {
      assert k <= i;
      assert log[..k] == log0[..k];
    }
  }

  lemma HeadBoundAdds(log0: seq<Item>, log1: seq<Item>, m: string, p: int)
    requires HeadBound(log1, m, p)
    requires p >= 0
    ensures HeadBound(log0 + log1, m, p + |log0|)
  {
    var log := log0 + log1;
    forall k | 0 <= k <= |log| && NoStart(log[..k], m) ensures k <= p + |log0| {
      if k > |log0| {
        assert log1[..k - |log0|] == log[..k][|log0|..];
        assert NoStart(log1[..k - |log0|], m);
      }
    }
  }

  lemma HeadBoundWeaker(log: seq<Item>, m: string, p: int, p2: int)
    requires HeadBound(log, m, p) && p <= p2
    ensures HeadBound(log, m, p2)
  {
  }

  lemma {:induction false} BypassFrom(s: System, steps: seq<Step>, m: string, p: nat)
    requires Inv(s) && At(s.q, m, p) && KeepsWaiting(s, steps, m)
    ensures s.q.started <= Exec(s, steps).q.started
    ensures HeadBound(NewStarts(s.q, Exec(s, steps).q), m, p)
    decreases |steps|
  {
    hide Consistent, Apply, KeepsWaiting, HeadBound, NoStart, Inv;
    ExecExtendsLog(s, steps);
    if steps == [] {
      assert NewStarts(s.q, Exec(s, steps).q) == [];
      NothingStarted(m, p);
    } else {
      var s1 := Apply(s, steps[0]);
      FirstStep(s, steps, m);
      StepAdvances(s, steps[0], m, p);
      ApplyKeeps(s, steps[0]);
      ExecExtendsLog(s1, steps[1..]);
      var log0 := NewStarts(s.q, s1.q);
      var log1 := NewStarts(s1.q, Exec(s, steps).q);
      assert NewStarts(s.q, Exec(s, steps).q) == log0 + log1;
      AdvancesBound(s.q, s1.q, m, p);
      if NoStart(log0, m) {
        var p1 :| At(s1.q, m, p1) && p1 + |log0| <= p;
        LaterSteps(s, steps, m);
        BypassFrom(s1, steps[1..], m, p1);
        HeadBoundAdds(log0, log1, m, p1);
        HeadBoundWeaker(log0 + log1, m, p1 + |log0|, p);
      } else {
        HeadBoundServed(log0, log1, m, p);
      }
    }
  }

  lemma NothingStarted(m: string, p: nat)
    ensures HeadBound([], m, p)
  {
  }

  lemma AdvancesBound(q: Queue, q2: Queue, m: string, p: nat)
    requires Advances(q, q2, m, p)
    ensures HeadBound(NewStarts(q, q2), m, p)
  {
  }

  lemma FirstStep(s: System, steps: seq<Step>, m: string)
    requires steps != [] && KeepsWaiting(s, steps, m)
    ensures Stays(s.q, Apply(s, steps[0]).q, m)
  {
    assert steps[..1] == [steps[0]];
    assert Exec(s, steps[..1]) == Exec(Apply(s, steps[0]), []) by { assert steps[..1][1..] == []; }
  }

  lemma NoStartJoins(a: seq<Item>, b: seq<Item>, m: string)
    ensures NoStart(a + b, m) <==> NoStart(a, m) && NoStart(b, m)
  {
    if NoStart(a + b, m) {
      assert forall i :: 0 <= i < |a| ==> (a + b)[i] == a[i];
      assert forall i :: 0 <= i < |b| ==> (a + b)[|a| + i] == b[i];
    }
  }

  lemma LaterSteps(s: System, steps: seq<Step>, m: string)
    requires Inv(s) && steps != [] && KeepsWaiting(s, steps, m)
    requires s.q.started <= Apply(s, steps[0]).q.started && NoStart(NewStarts(s.q, Apply(s, steps[0]).q), m)
    ensures KeepsWaiting(Apply(s, steps[0]), steps[1..], m)
  {
    hide Inv, Apply, NoStart;
    var s1 := Apply(s, steps[0]);
    ApplyKeeps(s, steps[0]);
    forall i | 0 <= i <= |steps[1..]| ensures Stays(s1.q, Exec(s1, steps[1..][..i]).q, m) {
      var s2 := Exec(s, steps[..i + 1]);
      assert steps[..i + 1][1..] == steps[1..][..i];
      assert s2 == Exec(s1, steps[1..][..i]);
      ExecExtendsLog(s1, steps[1..][..i]);
      assert Stays(s.q, s2.q, m);
      if m !in s2.q.queues {
        assert NewStarts(s.q, s2.q) == NewStarts(s.q, s1.q) + NewStarts(s1.q, s2.q);
        NoStartJoins(NewStarts(s.q, s1.q), NewStarts(s1.q, s2.q), m);
      }
    }
  }

  /**
   Bounded bypass. From any reachable state in which `m` waits at rotation index
   `p`, through any steps during which it keeps waiting until served, at most `p`
   items of other members start before `m`'s next one.
   */
  lemma BoundedBypass(limits: Limits, before: seq<Step>, steps: seq<Step>, m: string, p: nat)
    requires var s := Exec(Init(limits), before); At(s.q, m, p) && KeepsWaiting(s, steps, m)
    ensures var s := Exec(Init(limits), before);
      && s.q.started <= Exec(s, steps).q.started
      && var log := NewStarts(s.q, Exec(s, steps).q);
         forall k :: 0 <= k <= |log| && NoStart(log[..k], m) ==> k <= p
  {
    hide Consistent, Inv, Apply, KeepsWaiting, NoStart, Init;
    InitInv(limits);
    ExecKeeps(Init(limits), before);
    BypassFrom(Exec(Init(limits), before), steps, m, p);
  }
}
