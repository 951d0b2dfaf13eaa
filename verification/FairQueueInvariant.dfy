/**
 The whole system around the admission queue: every admitted Submit call is a
 small program counter machine, and a run is any sequence of lock-protected
 sections, timer expiries and context cancellations.

 The module proves what every reachable state satisfies.
 */
module FairQueueInvariant {
  import opened FairQueue

  datatype Outcome = Ran | TimedOut | Cancelled

  /** Where one Submit call is: in its select, inside execute, or returned. */
  datatype Phase = Waiting | Running | Returned(outcome: Outcome)

  datatype Call = Call(item: Item, phase: Phase)

  datatype System = System(q: Queue, calls: seq<Call>)

  datatype Step =
    | Submit(key: Key)
    | Wake(id: nat)      // the select sees the ready channel
    | Expire(id: nat)    // the select sees the queue timer
    | Done(id: nat)      // the select sees the request context
    | Finish(id: nat)    // the work returns and execute closes
    | Cancel(key: Key)
    | CancelMember(member: string)
    | SetLimits(limits: Limits)
    | Close

  function Init(limits: Limits): System {
    System(New(limits), [])
  }

  predicate InPhase(s: System, id: nat, phase: Phase) {
    id < |s.calls| && s.calls[id].phase == phase
  }

  function Goto(s: System, id: nat, phase: Phase): System
    requires id < |s.calls|
  {
    s.(calls := s.calls[id := Call(s.calls[id].item, phase)])
  }

  /** A waiter whose timer or context fired: it leaves unless it already holds a slot. */
  function Abandon(s: System, id: nat, why: Outcome): System
    requires id < |s.calls|
  {
    var it := s.calls[id].item;
    if id in s.q.dispatched then Goto(s, id, Running)
    else
      var q := AfterClaimAbort(s.q, it);
      Goto(s.(q := if why == TimedOut then q.(cancelled := q.cancelled + {id}) else q), id, Returned(why))
  }

  /** One step; a step that is not enabled leaves the system as it is. */
  function Apply(s: System, step: Step): System {
    match step
    case Submit(key) =>
      var q := AfterSubmit(s.q, key);
      (match Admit(s.q, key)
       case RunNow(it) => System(q, s.calls + [Call(it, Running)])
       case MustWait(it) => System(q, s.calls + [Call(it, Waiting)])
       case _ => s)
    case Wake(id) =>
      if InPhase(s, id, Waiting) && id in s.q.dispatched then Goto(s, id, Running) else s
    case Expire(id) => if InPhase(s, id, Waiting) then Abandon(s, id, TimedOut) else s
    case Done(id) => if InPhase(s, id, Waiting) then Abandon(s, id, Cancelled) else s
    case Finish(id) =>
      if InPhase(s, id, Running) then
        Goto(s.(q := AfterExecute(s.q, s.calls[id].item)), id, Returned(Ran))
      else s
    case Cancel(key) => s.(q := AfterCancel(s.q, key))
    case CancelMember(m) => s.(q := AfterCancelMember(s.q, m))
    case SetLimits(l) => s.(q := AfterSetLimits(s.q, l))
    case Close => s.(q := AfterClose(s.q))
  }

  function Exec(s: System, steps: seq<Step>): System
    decreases |steps|
  {
    if steps == [] then s else Exec(Apply(s, steps[0]), steps[1..])
  }

  // ----- the invariant -----

  /** Item `it` is the record of submission `it.id`. */
  predicate Known(calls: seq<Call>, it: Item) {
    it.id < |calls| && calls[it.id].item == it
  }

  /** Redundant counters agree with the tables they summarise. */
  ghost predicate Counters(q: Queue) {
    && q.activeCount == |q.activeItems|
    && q.totalQueued == |AllQueued(q)|
    && q.memberQueued.Keys == q.queues.Keys
    && (forall m :: m in q.queues ==> q.queues[m] != [] && q.memberQueued[m] == |q.queues[m]|)
  }

  /** The rotation lists exactly the members with waiting work, each once. */
  ghost predicate Rotation(rotation: seq<string>, members: set<string>) {
    && (forall m :: m in rotation <==> m in members)
    && (forall i, j :: 0 <= i < j < |rotation| ==> rotation[i] != rotation[j])
  }

  /** A queued item is a live submission that holds no slot and was not removed. */
  ghost predicate IsWaiting(q: Queue, calls: seq<Call>, m: string, it: Item) {
    && it.member == m && Known(calls, it) && calls[it.id].phase == Waiting
    && it.id !in q.dispatched && it.id !in q.removed && KeyOf(it) !in q.activeItems
  }

  ghost predicate Queued(q: Queue, calls: seq<Call>) {
    forall m, it :: m in q.queues && it in q.queues[m] ==> IsWaiting(q, calls, m, it)
  }

  /** One member's queue is in submission order and repeats no request. */
  ghost predicate Ordered(items: seq<Item>) {
    forall i, j :: 0 <= i < j < |items| ==> items[i].id < items[j].id && items[i].request != items[j].request
  }

  ghost predicate QueuesOrdered(queues: map<string, seq<Item>>) {
    forall m :: m in queues ==> Ordered(queues[m])
  }

  predicate HoldsSlot(active: map<Key, Item>, it: Item) {
    KeyOf(it) in active && active[KeyOf(it)] == it
  }

  /** A slot is held exactly by the dispatched submissions that have not returned. */
  ghost predicate Active(active: map<Key, Item>, dispatched: set<nat>, calls: seq<Call>) {
    && (forall k :: k in active ==>
         k == KeyOf(active[k]) && Known(calls, active[k]) && active[k].id in dispatched && !calls[active[k].id].phase.Returned?)
    && (forall id :: id in dispatched ==>
         && id < |calls| && calls[id].item.id == id
         && (if calls[id].phase.Returned? then calls[id].phase == Returned(Ran) else HoldsSlot(active, calls[id].item)))
  }

  /** Every submission is accounted for by its phase and its flags. */
  ghost predicate Accounted(q: Queue, calls: seq<Call>, id: nat)
    requires id < |calls|
  {
    var it := calls[id].item;
    && it.id == id
    && (calls[id].phase == Running || calls[id].phase == Returned(Ran) ==> id in q.dispatched)
    && (calls[id].phase == Waiting && id !in q.dispatched && id !in q.removed ==> it in q.Waiting(it.member))
  }

  ghost predicate Phases(q: Queue, calls: seq<Call>) {
    && q.nextId == |calls|
    && (forall id :: id in q.removed ==> id < |calls|)
    && (forall id :: 0 <= id < |calls| ==> Accounted(q, calls, id))
  }

  /** The start log holds the dispatched submissions, each once. */
  ghost predicate Started(started: seq<Item>, dispatched: set<nat>, calls: seq<Call>) {
    && (forall i :: 0 <= i < |started| ==> Known(calls, started[i]) && started[i].id in dispatched)
    && (forall id :: id in dispatched ==> id < |calls| && calls[id].item in started)
    && (forall i, j :: 0 <= i < j < |started| ==> started[i].id != started[j].id)
  }

  /** One member's items start in submission order, ahead of everything it still has waiting. */
  ghost predicate StartOrder(started: seq<Item>) {
    forall i, j :: 0 <= i < j < |started| && started[i].member == started[j].member ==> started[i].id < started[j].id
  }

  ghost predicate StartedBefore(started: seq<Item>, queues: map<string, seq<Item>>) {
    forall i, it :: 0 <= i < |started| && started[i].member in queues && it in queues[started[i].member] ==>
      started[i].id < it.id
  }

  /** Slots given back: exactly the items whose call ran to completion, each once. */
  ghost predicate Released(released: seq<Item>, calls: seq<Call>) {
    && (forall i :: 0 <= i < |released| ==> Known(calls, released[i]) && calls[released[i].id].phase == Returned(Ran))
    && (forall i, j :: 0 <= i < j < |released| ==> released[i].id != released[j].id)
    && (forall id :: 0 <= id < |calls| && calls[id].phase == Returned(Ran) ==> calls[id].item in released)
  }

  ghost predicate Consistent(q: Queue, calls: seq<Call>) {
    && q.limits.maxActive > 0
    && Counters(q)
    && Rotation(q.rotation, q.queues.Keys)
    && Queued(q, calls) && QueuesOrdered(q.queues)
    && Active(q.activeItems, q.dispatched, calls)
    && Phases(q, calls)
    && Started(q.started, q.dispatched, calls) && StartOrder(q.started) && StartedBefore(q.started, q.queues)
    && Released(q.released, calls)
    && |q.started| == |q.released| + |q.activeItems|
  }

  /** Waiting work means every slot the owner allows is taken. */
  predicate Saturated(q: Queue) {
    q.totalQueued > 0 ==> q.activeCount >= q.limits.maxActive
  }

  ghost predicate Inv(s: System) {
    Consistent(s.q, s.calls) && Saturated(s.q)
  }

  // ----- sequences without an element -----

  lemma {:induction false} WithoutAt<T>(s: seq<T>, x: T, k: nat)
    requires k < |s| && s[k] == x
    requires forall i :: 0 <= i < k ==> s[i] != x
    ensures Without(s, x) == s[..k] + s[k + 1..]
  {
    if k > 0 {
      WithoutAt(s[1..], x, k - 1);
      assert s == [s[0]] + s[1..];
    }
  }

  lemma {:induction false} WithoutMembers<T>(s: seq<T>, x: T, y: T)
    requires y in Without(s, x)
    ensures y in s
  {
    if s != [] && s[0] != x && y != s[0] {
      WithoutMembers(s[1..], x, y);
    }
  }

  lemma RestMembers<T>(items: seq<T>, k: nat, x: T)
    requires k < |items|
    requires forall i, j :: 0 <= i < j < |items| ==> items[i] != items[j]
    ensures x in items[..k] + items[k + 1..] <==> x in items && x != items[k]
  {
  }

  // ----- the rotation -----

  lemma RotationWithout(rotation: seq<string>, members: set<string>, m: string)
    requires m in members && Rotation(rotation, members)
    ensures Rotation(Without(rotation, m), members - {m})
  {
    assert m in rotation;
    var p :| 0 <= p < |rotation| && rotation[p] == m;
    WithoutAt(rotation, m, p);
    forall x ensures x in Without(rotation, m) <==> x in members - {m} {
      RestMembers(rotation, p, x);
    }
  }

  lemma NothingQueued(q: Queue)
    requires Counters(q) && Rotation(q.rotation, q.queues.Keys)
    ensures q.totalQueued > 0 <==> q.rotation != []
    ensures q.totalQueued > 0 <==> q.queues.Keys != {}
    ensures q.totalQueued >= 0
  {
    if q.rotation != [] {
      var m := q.rotation[0];
      assert m in q.rotation;
      assert q.queues[m][0] in q.queues[m];
      assert q.queues[m][0] in AllQueued(q);
    } else {
      assert q.queues.Keys == {} by {
        assert forall m :: m in q.queues.Keys ==> m in q.rotation;
      }
      assert AllQueued(q) == {};
    }
  }

  // ----- taking one item out of a member's queue -----

  /** `q2` is `q` with item `k` of member `m` taken out of its queue. */
  ghost predicate TakenOut(q: Queue, q2: Queue, m: string, k: nat) {
    && m in q.queues && k < |q.queues[m]|
    && var rest := q.queues[m][..k] + q.queues[m][k + 1..];
       q2.queues == if rest == [] then q.queues - {m} else q.queues[m := rest]
  }

  lemma TakenOutWaiting(q: Queue, q2: Queue, m: string, k: nat, x: Item)
    requires TakenOut(q, q2, m, k) && Ordered(q.queues[m])
    requires forall it :: it in q.queues[m] ==> it.member == m
    ensures x in q2.Waiting(x.member) <==> x in q.Waiting(x.member) && x != q.queues[m][k]
  {
  }

  lemma AllQueuedIs(q: Queue, x: Item)
    requires forall m, it :: m in q.queues && it in q.queues[m] ==> it.member == m
    ensures x in AllQueued(q) <==> x in q.Waiting(x.member)
  {
  }

  lemma TakenOutQueued(q: Queue, q2: Queue, m: string, k: nat, calls: seq<Call>)
    requires Queued(q, calls) && QueuesOrdered(q.queues) && TakenOut(q, q2, m, k)
    requires q2.removed == q.removed + {q.queues[m][k].id}
    requires q2.dispatched == q.dispatched || q2.dispatched == q.dispatched + {q.queues[m][k].id}
    requires q2.activeItems == q.activeItems || q2.activeItems == q.activeItems[KeyOf(q.queues[m][k]) := q.queues[m][k]]
    ensures Queued(q2, calls)
  {
    var gone := q.queues[m][k];
    assert gone in q.queues[m];
    forall m2, it | m2 in q2.queues && it in q2.queues[m2] ensures IsWaiting(q2, calls, m2, it) {
      if m2 == m {
        RestMembers(q.queues[m], k, it);
        var i :| 0 <= i < |q.queues[m]| && q.queues[m][i] == it;
        assert i != k;
        assert it.request != gone.request && it.id != gone.id;
      }
      assert it in q.queues[m2];
      assert IsWaiting(q, calls, m2, it);
      assert IsWaiting(q, calls, m, gone);
    }
  }

  lemma TakenOutOrdered(q: Queue, q2: Queue, m: string, k: nat)
    requires QueuesOrdered(q.queues) && TakenOut(q, q2, m, k)
    ensures QueuesOrdered(q2.queues)
  {
  }

  lemma TakenOutCounters(q: Queue, q2: Queue, m: string, k: nat, calls: seq<Call>)
    requires Counters(q) && Queued(q, calls) && QueuesOrdered(q.queues) && Queued(q2, calls) && TakenOut(q, q2, m, k)
    requires q2.memberQueued == Lowered(q.memberQueued, m) && q2.totalQueued == q.totalQueued - 1
    requires q2.activeCount == |q2.activeItems|
    ensures Counters(q2)
  {
    var it := q.queues[m][k];
    assert it in q.queues[m];
    forall x: Item ensures x in AllQueued(q2) <==> x in AllQueued(q) - {it} {
      AllQueuedIs(q, x);
      AllQueuedIs(q2, x);
      TakenOutWaiting(q, q2, m, k, x);
    }
    assert AllQueued(q2) == AllQueued(q) - {it};
    assert it in AllQueued(q) by { AllQueuedIs(q, it); }
  }

  lemma TakenOutPhases(q: Queue, q2: Queue, m: string, k: nat, calls: seq<Call>)
    requires Queued(q, calls) && QueuesOrdered(q.queues) && Phases(q, calls) && TakenOut(q, q2, m, k)
    requires q2.removed == q.removed + {q.queues[m][k].id} && q2.nextId == q.nextId
    requires q2.dispatched >= q.dispatched
    ensures Phases(q2, calls)
  {
    var gone := q.queues[m][k];
    assert gone in q.queues[m];
    assert IsWaiting(q, calls, m, gone);
    forall id | 0 <= id < |calls| ensures Accounted(q2, calls, id) {
      assert Accounted(q, calls, id);
      TakenOutWaiting(q, q2, m, k, calls[id].item);
    }
  }

  lemma TakenOutBefore(q: Queue, q2: Queue, m: string, k: nat)
    requires QueuesOrdered(q.queues) && StartedBefore(q.started, q.queues) && TakenOut(q, q2, m, k)
    ensures StartedBefore(q.started, q2.queues)
    ensures k == 0 ==> StartedBefore(q.started + [q.queues[m][0]], q2.queues) || q.queues[m][0].member != m
  {
  }

  // ----- dispatch -----

  /** In a consistent state the member at the head of the rotation has work waiting. */
  lemma HeadHasWork(q: Queue)
    requires CanDispatch(q) && Counters(q) && Rotation(q.rotation, q.queues.Keys)
    ensures q.rotation[0] in q.queues && q.queues[q.rotation[0]] != []
    ensures TakenOut(q, DispatchOne(q), q.rotation[0], 0)
  {
    var m := q.rotation[0];
    assert m in q.rotation;
    assert q.queues[m][..0] + q.queues[m][1..] == q.queues[m][1..];
  }

  lemma DispatchOneRotation(q: Queue)
    requires CanDispatch(q) && Counters(q) && Rotation(q.rotation, q.queues.Keys)
    ensures Rotation(DispatchOne(q).rotation, DispatchOne(q).queues.Keys)
  {
  }

  lemma ChargedActive(active: map<Key, Item>, dispatched: set<nat>, calls: seq<Call>, it: Item)
    requires Active(active, dispatched, calls) && Known(calls, it) && !calls[it.id].phase.Returned?
    requires KeyOf(it) !in active
    ensures Active(active[KeyOf(it) := it], dispatched + {it.id}, calls)
    ensures |active[KeyOf(it) := it]| == |active| + 1
  {
  }

  lemma ChargedStarted(started: seq<Item>, dispatched: set<nat>, calls: seq<Call>, it: Item)
    requires Started(started, dispatched, calls) && Known(calls, it) && it.id !in dispatched
    ensures Started(started + [it], dispatched + {it.id}, calls)
  {
  }

  lemma ChargedOrder(started: seq<Item>, it: Item)
    requires StartOrder(started)
    requires forall i :: 0 <= i < |started| && started[i].member == it.member ==> started[i].id < it.id
    ensures StartOrder(started + [it])
  {
  }

  lemma HeadIsWaiting(q: Queue, calls: seq<Call>, m: string)
    requires Queued(q, calls) && StartedBefore(q.started, q.queues) && m in q.queues && q.queues[m] != []
    ensures IsWaiting(q, calls, m, q.queues[m][0])
    ensures forall i :: 0 <= i < |q.started| && q.started[i].member == m ==> q.started[i].id < q.queues[m][0].id
  {
  }

  lemma DispatchOneKeeps(q: Queue, calls: seq<Call>)
    requires CanDispatch(q) && Consistent(q, calls)
    ensures Consistent(DispatchOne(q), calls)
  {
    var m := q.rotation[0];
    var q2 := DispatchOne(q);
    hide Counters, Rotation, Queued, QueuesOrdered, Active, Phases, Started, StartOrder, StartedBefore, Released;
    HeadHasWork(q);
    var it := q.queues[m][0];
    HeadIsWaiting(q, calls, m);
    DispatchOneRotation(q);
    ChargedActive(q.activeItems, q.dispatched, calls, it);
    ChargedStarted(q.started, q.dispatched, calls, it);
    ChargedOrder(q.started, it);
    TakenOutBefore(q, q2, m, 0);
    TakenOutQueued(q, q2, m, 0, calls);
    TakenOutOrdered(q, q2, m, 0);
    TakenOutPhases(q, q2, m, 0, calls);
    TakenOutCounters(q, q2, m, 0, calls);
  }

  /** Dispatch keeps the state consistent, fills every free slot and never goes above the limit. */
  lemma {:induction false} DispatchKeeps(q: Queue, calls: seq<Call>)
    requires Consistent(q, calls)
    ensures Consistent(Dispatch(q), calls) && Saturated(Dispatch(q))
    decreases q.totalQueued, |q.rotation|
  {
    if CanDispatch(q) {
      DispatchOneKeeps(q, calls);
      DispatchKeeps(DispatchOne(q), calls);
    } else {
      NothingQueued(q);
    }
  }

  lemma {:induction false} DispatchWithinLimits(q: Queue)
    ensures Dispatch(q).limits == q.limits && q.started <= Dispatch(q).started
    ensures Dispatch(q).activeCount == q.activeCount + |Dispatch(q).started| - |q.started|
    ensures Dispatch(q).started != q.started ==> Dispatch(q).activeCount <= q.limits.maxActive
    decreases q.totalQueued, |q.rotation|
  {
    if CanDispatch(q) {
      DispatchWithinLimits(DispatchOne(q));
    }
  }

  // ----- removal -----

  lemma RemoveIsTakenOut(q: Queue, it: Item, k: nat, calls: seq<Call>)
    requires Queued(q, calls) && QueuesOrdered(q.queues) && Counters(q)
    requires it.member in q.queues && k < |q.queues[it.member]| && q.queues[it.member][k] == it
    ensures TakenOut(q, Remove(q, it), it.member, k)
    ensures it.id !in q.removed && q.totalQueued >= 1
  {
    assert it in q.queues[it.member];
    assert IsWaiting(q, calls, it.member, it);
    assert Ordered(q.queues[it.member]);
    WithoutAt(q.queues[it.member], it, k);
    AllQueuedIs(q, it);
  }

  lemma RemoveKeeps(q: Queue, it: Item, k: nat, calls: seq<Call>)
    requires Consistent(q, calls)
    requires it.member in q.queues && k < |q.queues[it.member]| && q.queues[it.member][k] == it
    ensures Consistent(Remove(q, it), calls)
    ensures Saturated(q) ==> Saturated(Remove(q, it))
  {
    var m := it.member;
    var q2 := Remove(q, it);
    RemoveIsTakenOut(q, it, k, calls);
    RotationWithout(q.rotation, q.queues.Keys, m);
    assert Rotation(q2.rotation, q2.queues.Keys) by {
      assert (q.queues - {m}).Keys == q.queues.Keys - {m};
      assert q2.queues != q.queues - {m} ==> q2.queues.Keys == q.queues.Keys;
    }
    TakenOutBefore(q, q2, m, k);
    TakenOutQueued(q, q2, m, k, calls);
    TakenOutOrdered(q, q2, m, k);
    TakenOutPhases(q, q2, m, k, calls);
    TakenOutCounters(q, q2, m, k, calls);
  }

  // ----- admission -----

  /** A fresh submission changes nothing about the ones already known. */
  lemma FreshCall(q: Queue, calls: seq<Call>, c: Call)
    requires Consistent(q, calls) && c.item.id == |calls|
    requires c.phase != Returned(Ran)
    ensures Queued(q.(nextId := q.nextId + 1), calls + [c])
    ensures Active(q.activeItems, q.dispatched, calls + [c])
    ensures Started(q.started, q.dispatched, calls + [c])
    ensures Released(q.released, calls + [c])
    ensures c.item.id !in q.dispatched && c.item.id !in q.removed
  {
  }

  lemma ItemsOfPlus(queues: map<string, seq<Item>>, it: Item, items: seq<Item>)
    requires items == if it.member in queues then queues[it.member] else []
    ensures ItemsOf(queues[it.member := items + [it]]) == ItemsOf(queues) + {it}
  {
    var queues2 := queues[it.member := items + [it]];
    forall x | x in ItemsOf(queues) + {it} ensures x in ItemsOf(queues2) {
      if x == it {
        assert (items + [it])[|items|] == it;
        assert it in queues2[it.member];
      } else {
        var m :| m in queues && x in queues[m];
        assert x in queues2[m];
      }
    }
    forall x | x in ItemsOf(queues2) ensures x in ItemsOf(queues) + {it} {
      var m :| m in queues2 && x in queues2[m];
      assert x == it || (m in queues && x in queues[m]);
    }
  }

  lemma EnqueueCounters(q: Queue, it: Item)
    requires Counters(q) && it !in AllQueued(q)
    ensures Counters(Enqueue(q, it))
  {
    hide ItemsOf;
    var q2 := Enqueue(q, it);
    EnqueueTotal(q, it);
    EnqueueKeys(q, it);
    forall m | m in q2.queues ensures q2.queues[m] != [] && q2.memberQueued[m] == |q2.queues[m]| {
      EnqueueDepth(q, it, m);
    }
  }

  lemma EnqueueTotal(q: Queue, it: Item)
    requires it !in AllQueued(q)
    ensures |AllQueued(Enqueue(q, it))| == |AllQueued(q)| + 1
  {
    hide ItemsOf;
    ItemsOfPlus(q.queues, it, q.Waiting(it.member));
  }

  lemma EnqueueKeys(q: Queue, it: Item)
    requires q.memberQueued.Keys == q.queues.Keys
    ensures Enqueue(q, it).memberQueued.Keys == Enqueue(q, it).queues.Keys == q.queues.Keys + {it.member}
  {
  }

  lemma EnqueueDepth(q: Queue, it: Item, m: string)
    requires Counters(q) && m in Enqueue(q, it).queues && m in Enqueue(q, it).memberQueued
    ensures Enqueue(q, it).queues[m] != [] && Enqueue(q, it).memberQueued[m] == |Enqueue(q, it).queues[m]|
  {
  }

  lemma EnqueueOrdered(q: Queue, it: Item, calls: seq<Call>)
    requires Queued(q, calls) && QueuesOrdered(q.queues) && !IsDuplicate(q, KeyOf(it)) && it.id == |calls|
    ensures QueuesOrdered(Enqueue(q, it).queues) && it !in q.Waiting(it.member)
  {
    var items := q.Waiting(it.member);
    forall i | 0 <= i < |items| ensures items[i].id < it.id && items[i].request != it.request {
      assert items[i] in items;
      assert IsWaiting(q, calls, it.member, items[i]);
    }
    assert Ordered(items + [it]);
  }

  lemma EnqueueQueued(q: Queue, it: Item, calls: seq<Call>)
    requires Queued(q, calls) && Known(calls, it) && calls[it.id].phase == Waiting
    requires it.id !in q.dispatched && it.id !in q.removed && KeyOf(it) !in q.activeItems
    ensures Queued(Enqueue(q, it), calls)
  {
  }

  lemma EnqueuePhases(q: Queue, it: Item, calls: seq<Call>)
    requires Phases(q, calls) && it.id == |calls|
    ensures Phases(Enqueue(q.(nextId := q.nextId + 1), it), calls + [Call(it, Waiting)])
  {
    var q2 := Enqueue(q.(nextId := q.nextId + 1), it);
    var calls2 := calls + [Call(it, Waiting)];
    forall id | 0 <= id < |calls2| ensures Accounted(q2, calls2, id) {
      if id < |calls| {
        assert Accounted(q, calls, id);
        assert forall x :: x in q.Waiting(calls[id].item.member) ==> x in q2.Waiting(calls[id].item.member);
      } else {
        assert q2.Waiting(it.member)[|q.Waiting(it.member)|] == it;
      }
    }
  }

  lemma StartedAreKnown(started: seq<Item>, dispatched: set<nat>, calls: seq<Call>, it: Item)
    requires Started(started, dispatched, calls) && it.id == |calls|
    ensures forall i :: 0 <= i < |started| ==> started[i].id < it.id
  {
  }

  lemma EnqueueRotation(q: Queue, it: Item)
    requires Rotation(q.rotation, q.queues.Keys) && StartedBefore(q.started, q.queues)
    requires forall i :: 0 <= i < |q.started| ==> q.started[i].id < it.id
    ensures Rotation(Enqueue(q, it).rotation, Enqueue(q, it).queues.Keys)
    ensures StartedBefore(q.started, Enqueue(q, it).queues)
  {
  }

  lemma EnqueueKeeps(q: Queue, it: Item, calls: seq<Call>)
    requires Consistent(q, calls) && it.id == |calls| && !IsDuplicate(q, KeyOf(it))
    ensures Consistent(Enqueue(q.(nextId := q.nextId + 1), it), calls + [Call(it, Waiting)])
  {
    var q1 := q.(nextId := q.nextId + 1);
    var calls2 := calls + [Call(it, Waiting)];
    FreshCall(q, calls, Call(it, Waiting));
    assert Counters(q1) by { assert AllQueued(q1) == AllQueued(q); }
    EnqueueOrdered(q, it, calls);
    AllQueuedIs(q1, it);
    EnqueueCounters(q1, it);
    EnqueueQueued(q1, it, calls2);
    EnqueuePhases(q, it, calls);
    StartedAreKnown(q.started, q.dispatched, calls, it);
    EnqueueRotation(q1, it);
  }

  lemma ChargeKeeps(q: Queue, it: Item, calls: seq<Call>)
    requires Consistent(q, calls) && it.id == |calls| && !IsDuplicate(q, KeyOf(it)) && q.totalQueued == 0
    ensures Consistent(Charge(q.(nextId := q.nextId + 1), it), calls + [Call(it, Running)])
  {
    var q2 := Charge(q.(nextId := q.nextId + 1), it);
    var calls2 := calls + [Call(it, Running)];
    NothingQueued(q);
    FreshCall(q, calls, Call(it, Running));
    ChargedActive(q.activeItems, q.dispatched, calls2, it);
    ChargedStarted(q.started, q.dispatched, calls2, it);
    StartedAreKnown(q.started, q.dispatched, calls, it);
    ChargedOrder(q.started, it);
    assert AllQueued(q2) == AllQueued(q);
    forall id | 0 <= id < |calls2| ensures Accounted(q2, calls2, id) {
      if id < |calls| { assert Accounted(q, calls, id); }
    }
  }

  lemma SubmitRuns(q: Queue, calls: seq<Call>, key: Key, it: Item)
    requires Consistent(q, calls) && Saturated(q) && Admit(q, key) == RunNow(it)
    ensures Consistent(AfterSubmit(q, key), calls + [Call(it, Running)]) && Saturated(AfterSubmit(q, key))
  {
    assert it.id == |calls| && KeyOf(it) == key && !IsDuplicate(q, key) && q.totalQueued == 0;
    ChargeKeeps(q, it, calls);
  }

  lemma SubmitWaits(q: Queue, calls: seq<Call>, key: Key, it: Item)
    requires Consistent(q, calls) && Saturated(q) && Admit(q, key) == MustWait(it)
    ensures Consistent(AfterSubmit(q, key), calls + [Call(it, Waiting)]) && Saturated(AfterSubmit(q, key))
  {
    assert it.id == |calls| && KeyOf(it) == key && !IsDuplicate(q, key);
    NothingQueued(q);
    EnqueueKeeps(q, it, calls);
  }

  // ----- phase changes -----

  /** Moving a call that has not run to `phase` keeps everything said about the others. */
  lemma GotoKeeps(q: Queue, calls: seq<Call>, id: nat, phase: Phase)
    requires Consistent(q, calls) && id < |calls| && calls[id].phase == Waiting
    requires phase == Running ==> id in q.dispatched
    requires phase.Returned? ==> id !in q.dispatched && id in q.removed && phase.outcome != Ran
    requires phase != Waiting
    ensures Consistent(q, calls[id := Call(calls[id].item, phase)])
  {
    var calls2 := calls[id := Call(calls[id].item, phase)];
    assert forall it: Item :: Known(calls2, it) <==> Known(calls, it);
    forall m, it | m in q.queues && it in q.queues[m] ensures IsWaiting(q, calls2, m, it) {
      assert IsWaiting(q, calls, m, it);
    }
    assert Accounted(q, calls, id);
    forall j | 0 <= j < |calls2| ensures Accounted(q, calls2, j) {
      assert Accounted(q, calls, j);
    }
    assert Released(q.released, calls2);
  }

  lemma AbandonKeeps(s: System, id: nat, why: Outcome)
    requires Inv(s) && InPhase(s, id, Waiting) && why != Ran
    ensures Inv(Abandon(s, id, why))
  {
    var it := s.calls[id].item;
    assert Accounted(s.q, s.calls, id);
    if id in s.q.dispatched {
      GotoKeeps(s.q, s.calls, id, Running);
    } else {
      var q := AfterClaimAbort(s.q, it);
      assert Consistent(q, s.calls) && Saturated(q) && id in q.removed && id !in q.dispatched by {
        if id !in s.q.removed {
          var k :| 0 <= k < |s.q.Waiting(it.member)| && s.q.Waiting(it.member)[k] == it;
          RemoveKeeps(s.q, it, k, s.calls);
        }
      }
      GotoKeeps(q, s.calls, id, Returned(why));
      CancelledIrrelevant(q, q.cancelled + {id}, q.closed, Goto(s, id, Returned(why)).calls);
    }
  }

  /** The cancellation marks and the closed flag play no part in consistency. */
  lemma CancelledIrrelevant(q: Queue, cancelled: set<nat>, closed: bool, calls: seq<Call>)
    requires Consistent(q, calls)
    ensures Consistent(q.(cancelled := cancelled, closed := closed), calls)
  {
    var q2 := q.(cancelled := cancelled, closed := closed);
    assert AllQueued(q2) == AllQueued(q);
    forall m, it | m in q.queues && it in q.queues[m] ensures IsWaiting(q2, calls, m, it) {
      assert IsWaiting(q, calls, m, it);
    }
    forall id | 0 <= id < |calls| ensures Accounted(q2, calls, id) {
      assert Accounted(q, calls, id);
    }
  }

  lemma LimitsIrrelevant(q: Queue, limits: Limits, calls: seq<Call>)
    requires Consistent(q, calls) && limits.maxActive > 0
    ensures Consistent(q.(limits := limits), calls)
  {
    var q2 := q.(limits := limits);
    assert AllQueued(q2) == AllQueued(q);
    forall m, it | m in q.queues && it in q.queues[m] ensures IsWaiting(q2, calls, m, it) {
      assert IsWaiting(q, calls, m, it);
    }
    forall id | 0 <= id < |calls| ensures Accounted(q2, calls, id) {
      assert Accounted(q, calls, id);
    }
  }

  // ----- release -----

  lemma ReleaseActive(active: map<Key, Item>, dispatched: set<nat>, calls: seq<Call>, id: nat)
    requires Active(active, dispatched, calls) && id < |calls| && HoldsSlot(active, calls[id].item)
    requires calls[id].item.id == id && id in dispatched
    ensures Active(active - {KeyOf(calls[id].item)}, dispatched, calls[id := Call(calls[id].item, Returned(Ran))])
    ensures |active - {KeyOf(calls[id].item)}| == |active| - 1
  {
  }

  lemma ReleaseReleased(released: seq<Item>, calls: seq<Call>, id: nat)
    requires Released(released, calls) && id < |calls| && calls[id].item.id == id && calls[id].phase == Running
    ensures Released(released + [calls[id].item], calls[id := Call(calls[id].item, Returned(Ran))])
  {
  }

  lemma RunningHoldsSlot(q: Queue, calls: seq<Call>, id: nat)
    requires Consistent(q, calls) && id < |calls| && calls[id].phase == Running
    ensures calls[id].item.id == id && id in q.dispatched
    ensures HoldsSlot(q.activeItems, calls[id].item) && q.activeCount >= 1
  {
    assert Accounted(q, calls, id);
    assert KeyOf(calls[id].item) in q.activeItems.Keys;
    assert |q.activeItems| == |q.activeItems.Keys|;
  }

  lemma ReleaseWaiting(q: Queue, q2: Queue, calls: seq<Call>, id: nat)
    requires Queued(q, calls) && Phases(q, calls) && id < |calls| && calls[id].phase == Running
    requires q2.queues == q.queues && q2.dispatched == q.dispatched && q2.removed == q.removed && q2.nextId == q.nextId
    requires q2.activeItems.Keys <= q.activeItems.Keys
    ensures Queued(q2, calls[id := Call(calls[id].item, Returned(Ran))])
    ensures Phases(q2, calls[id := Call(calls[id].item, Returned(Ran))])
    ensures AllQueued(q2) == AllQueued(q)
  {
    var calls2 := calls[id := Call(calls[id].item, Returned(Ran))];
    forall m, x | m in q2.queues && x in q2.queues[m] ensures IsWaiting(q2, calls2, m, x) {
      assert IsWaiting(q, calls, m, x);
    }
    assert Accounted(q, calls, id);
    forall j | 0 <= j < |calls2| ensures Accounted(q2, calls2, j) {
      assert Accounted(q, calls, j);
    }
  }

  lemma ReleaseStarted(started: seq<Item>, dispatched: set<nat>, calls: seq<Call>, id: nat)
    requires Started(started, dispatched, calls) && id < |calls|
    ensures Started(started, dispatched, calls[id := Call(calls[id].item, Returned(Ran))])
  {
  }

  lemma ReleaseKeeps(q: Queue, calls: seq<Call>, id: nat)
    requires Consistent(q, calls) && id < |calls| && calls[id].phase == Running
    ensures HoldsSlot(q.activeItems, calls[id].item)
    ensures Consistent(Release(q, calls[id].item), calls[id := Call(calls[id].item, Returned(Ran))])
  {
    RunningHoldsSlot(q, calls, id);
    ReleaseActive(q.activeItems, q.dispatched, calls, id);
    ReleaseReleased(q.released, calls, id);
    ReleaseStarted(q.started, q.dispatched, calls, id);
    ReleaseWaiting(q, Release(q, calls[id].item), calls, id);
  }

  lemma ExecuteKeeps(q: Queue, calls: seq<Call>, id: nat)
    requires Consistent(q, calls) && id < |calls| && calls[id].phase == Running
    ensures Consistent(AfterExecute(q, calls[id].item), calls[id := Call(calls[id].item, Returned(Ran))])
    ensures Saturated(AfterExecute(q, calls[id].item))
  {
    hide Consistent;
    var calls2 := calls[id := Call(calls[id].item, Returned(Ran))];
    var it := calls[id].item;
    ReleaseKeeps(q, calls, id);
    DispatchKeeps(Release(q, it), calls2);
    var q1 := Dispatch(Release(q, it));
    CancelledIrrelevant(q1, q1.cancelled + {it.id}, q1.closed, calls2);
  }

  // ----- cancellation -----

  lemma CancelOneKeeps(q: Queue, k: nat, m: string, calls: seq<Call>)
    requires Consistent(q, calls) && m in q.queues && k < |q.queues[m]|
    ensures Consistent(CancelOne(q, q.queues[m][k]), calls)
  {
    var it := q.queues[m][k];
    assert it in q.queues[m];
    assert IsWaiting(q, calls, m, it);
    RemoveKeeps(q, it, k, calls);
    var q1 := Remove(q, it);
    CancelledIrrelevant(q1, q1.cancelled + {it.id}, q1.closed, calls);
  }

  /** Cancelling a member's waiting items one by one, oldest first, stays consistent throughout. */
  lemma {:induction false} CancelEachKeeps(q: Queue, m: string, calls: seq<Call>)
    requires Consistent(q, calls)
    ensures Consistent(CancelEach(q, q.Waiting(m)), calls)
    ensures m !in CancelEach(q, q.Waiting(m)).queues
    decreases |q.Waiting(m)|
  {
    var items := q.Waiting(m);
    if items != [] {
      CancelOneKeeps(q, 0, m, calls);
      assert items[0] in items;
      assert IsWaiting(q, calls, m, items[0]);
      assert Without(items, items[0]) == items[1..];
      var q1 := CancelOne(q, items[0]);
      assert q1.Waiting(m) == items[1..];
      CancelEachKeeps(q1, m, calls);
    }
  }

  lemma CancelKeeps(q: Queue, calls: seq<Call>, key: Key)
    requires Consistent(q, calls) && Saturated(q)
    ensures Consistent(AfterCancel(q, key), calls) && Saturated(AfterCancel(q, key))
  {
    hide Consistent;
    if key in q.activeItems {
      CancelledIrrelevant(q, q.cancelled + {q.activeItems[key].id}, q.closed, calls);
    } else if FindRequest(q.Waiting(key.member), key.request) < |q.Waiting(key.member)| {
      CancelQueuedKeeps(q, calls, key.member, FindRequest(q.Waiting(key.member), key.request));
    }
  }

  lemma CancelQueuedKeeps(q: Queue, calls: seq<Call>, m: string, i: nat)
    requires Consistent(q, calls) && i < |q.Waiting(m)|
    ensures Consistent(Dispatch(CancelOne(q, q.Waiting(m)[i])), calls)
    ensures Saturated(Dispatch(CancelOne(q, q.Waiting(m)[i])))
  {
    hide Consistent;
    CancelOneKeeps(q, i, m, calls);
    DispatchKeeps(CancelOne(q, q.Waiting(m)[i]), calls);
  }

  lemma CancelMemberKeeps(s: System, m: string)
    requires Inv(s)
    ensures Inv(Apply(s, CancelMember(m)))
  {
    hide Consistent;
    var q1 := s.q.(cancelled := s.q.cancelled + ActiveOf(s.q, m));
    CancelledIrrelevant(s.q, q1.cancelled, q1.closed, s.calls);
    CancelEachKeeps(q1, m, s.calls);
    DispatchKeeps(CancelEach(q1, q1.Waiting(m)), s.calls);
  }

  // ----- every step, every run -----

  lemma InitInv(limits: Limits)
    ensures Inv(Init(limits))
  {
  }

  lemma ApplyKeeps(s: System, step: Step)
    requires Inv(s)
    ensures Inv(Apply(s, step))
  {
    hide Consistent;
    match step
    case Submit(key) =>
      match Admit(s.q, key) {
        case RunNow(it) => SubmitRuns(s.q, s.calls, key, it);
        case MustWait(it) => SubmitWaits(s.q, s.calls, key, it);
        case _ =>
      }
    case Wake(id) =>
      if InPhase(s, id, Waiting) && id in s.q.dispatched { GotoKeeps(s.q, s.calls, id, Running); }
    case Expire(id) => if InPhase(s, id, Waiting) { AbandonKeeps(s, id, TimedOut); }
    case Done(id) => if InPhase(s, id, Waiting) { AbandonKeeps(s, id, Cancelled); }
    case Finish(id) => if InPhase(s, id, Running) { ExecuteKeeps(s.q, s.calls, id); }
    case Cancel(key) => CancelKeeps(s.q, s.calls, key);
    case CancelMember(m) => CancelMemberKeeps(s, m);
    case SetLimits(l) =>
      LimitsIrrelevant(s.q, NormalizeLimits(l), s.calls);
      DispatchKeeps(s.q.(limits := NormalizeLimits(l)), s.calls);
    case Close =>
      CancelledIrrelevant(s.q, AfterClose(s.q).cancelled, true, s.calls);
  }

  lemma {:induction false} ExecKeeps(s: System, steps: seq<Step>)
    requires Inv(s)
    ensures Inv(Exec(s, steps))
    decreases |steps|
  {
    hide Consistent;
    if steps != [] {
      ApplyKeeps(s, steps[0]);
      ExecKeeps(Apply(s, steps[0]), steps[1..]);
    }
  }
}
