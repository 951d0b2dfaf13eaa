/**
 What cancelling means over whole runs of the admission queue: nobody waits in
 vain, work taken out of its queue never starts, and cancelling a member stops
 exactly that member.
 */
module FairQueueCancellation {
  import opened FairQueue
  import opened FairQueueInvariant
  import opened FairQueueTheorems

  /** A waiter taken out of its queue without a slot has its context cancelled. */
  ghost predicate Told(q: Queue, calls: seq<Call>) {
    forall id :: 0 <= id < |calls| && calls[id].phase == Waiting && id in q.removed && id !in q.dispatched ==> id in q.cancelled
  }

  /** Once the queue is closed, every call that has not returned has its context cancelled. */
  ghost predicate ClosedToAll(q: Queue, calls: seq<Call>) {
    q.closed ==> forall id :: 0 <= id < |calls| && !calls[id].phase.Returned? ==> id in q.cancelled
  }

  ghost predicate Woken(s: System) {
    Told(s.q, s.calls) && ClosedToAll(s.q, s.calls)
  }

  /** From `q` to `q2` cancellations stay, and whatever left its queue was dispatched or cancelled. */
  ghost predicate Grows(q: Queue, q2: Queue) {
    && q.cancelled <= q2.cancelled && q.dispatched <= q2.dispatched && q.closed == q2.closed
    && forall id :: id in q2.removed ==> id in q.removed || id in q2.dispatched || id in q2.cancelled
  }

  lemma GrowsWakes(q: Queue, q2: Queue, calls: seq<Call>)
    requires Woken(System(q, calls)) && Grows(q, q2)
    ensures Woken(System(q2, calls))
  {
  }

  lemma {:induction false} DispatchFrame(q: Queue)
    ensures Grows(q, Dispatch(q)) && Dispatch(q).cancelled == q.cancelled && q.removed <= Dispatch(q).removed
    decreases q.totalQueued, |q.rotation|
  {
    if CanDispatch(q) { DispatchFrame(DispatchOne(q)); }
  }

  function Numbers(items: seq<Item>): set<nat> {
    set it | it in items :: it.id
  }

  lemma {:induction false} CancelEachMarks(q: Queue, items: seq<Item>)
    ensures var q2 := CancelEach(q, items);
      && q2.cancelled == q.cancelled + Numbers(items) && q2.removed == q.removed + Numbers(items)
      && q2.dispatched == q.dispatched && q2.closed == q.closed && q2.activeItems == q.activeItems
    decreases items
  {
    if items == [] {
      assert Numbers(items) == {};
    } else {
      CancelEachMarks(CancelOne(q, items[0]), items[1..]);
      assert Numbers(items) == {items[0].id} + Numbers(items[1..]);
    }
  }

  lemma CancelWakes(s: System, key: Key)
    requires Woken(s)
    ensures Woken(Apply(s, Cancel(key)))
  {
    var q := s.q;
    var items := q.Waiting(key.member);
    var i := FindRequest(items, key.request);
    if key !in q.activeItems && i < |items| {
      GrowsWakes(q, CancelOne(q, items[i]), s.calls);
      DispatchFrame(CancelOne(q, items[i]));
      GrowsWakes(CancelOne(q, items[i]), AfterCancel(q, key), s.calls);
    } else {
      GrowsWakes(q, AfterCancel(q, key), s.calls);
    }
  }

  lemma CancelMemberWakes(s: System, m: string)
    requires Woken(s)
    ensures Woken(Apply(s, CancelMember(m)))
  {
    var q1 := s.q.(cancelled := s.q.cancelled + ActiveOf(s.q, m));
    var q2 := CancelEach(q1, q1.Waiting(m));
    CancelEachMarks(q1, q1.Waiting(m));
    GrowsWakes(s.q, q2, s.calls);
    DispatchFrame(q2);
    GrowsWakes(q2, Dispatch(q2), s.calls);
  }

  lemma SubmitWakes(s: System, key: Key)
    requires Inv(s) && Woken(s)
    ensures Woken(Apply(s, Submit(key)))
  {
    hide Consistent;
    forall id | id in s.q.removed ensures id < |s.calls| == s.q.nextId { RemovedIsKnown(s.q, s.calls, id); }
  }

  lemma AbandonWakes(s: System, id: nat, why: Outcome)
    requires Inv(s) && Woken(s) && InPhase(s, id, Waiting)
    ensures Woken(Abandon(s, id, why))
  {
    hide Consistent, Without, Lowered;
    AccountedFact(s.q, s.calls, id);
  }

  lemma FinishWakes(s: System, id: nat)
    requires Woken(s) && InPhase(s, id, Running)
    ensures Woken(Apply(s, Finish(id)))
  {
    DispatchFrame(Release(s.q, s.calls[id].item));
    GrowsWakes(s.q, AfterExecute(s.q, s.calls[id].item), s.calls);
  }

  /** Closing reaches everyone: active, queued, or already taken out of a queue. */
  lemma CloseWakes(s: System)
    requires Inv(s) && Woken(s)
    ensures Woken(Apply(s, Close))
  {
    hide Consistent;
    var q, calls := s.q, s.calls;
    forall id | 0 <= id < |calls| && !calls[id].phase.Returned? ensures id in AfterClose(q).cancelled {
      AccountedFact(q, calls, id);
      if id in q.dispatched {
        SlotOf(q, calls, id);
      } else if id !in q.removed {
        assert calls[id].item in AllQueued(q);
      }
    }
  }

  lemma SlotOf(q: Queue, calls: seq<Call>, id: nat)
    requires Consistent(q, calls) && id < |calls| && id in q.dispatched && !calls[id].phase.Returned?
    ensures HoldsSlot(q.activeItems, calls[id].item) && calls[id].item.id == id
  {
  }

  lemma StepWakes(s: System, step: Step)
    requires Inv(s) && Woken(s)
    ensures Woken(Apply(s, step))
  {
    hide Inv, Dispatch;
    match step
    case Submit(key) => SubmitWakes(s, key);
    case Wake(id) =>
    case Expire(id) => if InPhase(s, id, Waiting) { AbandonWakes(s, id, TimedOut); }
    case Done(id) => if InPhase(s, id, Waiting) { AbandonWakes(s, id, Cancelled); }
    case Finish(id) => if InPhase(s, id, Running) { FinishWakes(s, id); }
    case Cancel(key) => CancelWakes(s, key);
    case CancelMember(m) => CancelMemberWakes(s, m);
    case SetLimits(l) =>
      var q1 := s.q.(limits := NormalizeLimits(l));
      GrowsWakes(s.q, q1, s.calls);
      DispatchFrame(q1);
      GrowsWakes(q1, Dispatch(q1), s.calls);
    case Close => CloseWakes(s);
  }

  lemma {:induction false} ExecWakes(s: System, steps: seq<Step>)
    requires Inv(s) && Woken(s)
    ensures Woken(Exec(s, steps))
    decreases |steps|
  {
    hide Inv, Woken, Apply;
    if steps != [] {
      StepWakes(s, steps[0]);
      ApplyKeeps(s, steps[0]);
      ExecWakes(Apply(s, steps[0]), steps[1..]);
    }
  }

  /**
   No waiter is stranded: in every reachable state a waiting call is in its queue,
   holds a slot, or has its context cancelled; and after a close every call that
   has not returned has its context cancelled.
   */
  lemma NoWaiterStranded(limits: Limits, steps: seq<Step>, id: nat)
    ensures var s := Exec(Init(limits), steps);
      InPhase(s, id, Waiting) ==>
        s.calls[id].item in s.q.Waiting(s.calls[id].item.member) || id in s.q.dispatched || id in s.q.cancelled
    ensures var s := Exec(Init(limits), steps);
      s.q.closed && id < |s.calls| && !s.calls[id].phase.Returned? ==> id in s.q.cancelled
  {
    hide Consistent;
    InitInv(limits);
    ExecKeeps(Init(limits), steps);
    ExecWakes(Init(limits), steps);
    var s := Exec(Init(limits), steps);
    if id < |s.calls| { AccountedFact(s.q, s.calls, id); }
  }

  // ----- what was taken out never starts -----

  ghost predicate Spared(q: Queue, id: nat) {
    id in q.removed && id !in q.dispatched
  }

  lemma {:induction false} DispatchSpares(q: Queue, calls: seq<Call>, id: nat)
    requires Consistent(q, calls) && Spared(q, id)
    ensures Spared(Dispatch(q), id)
    decreases q.totalQueued, |q.rotation|
  {
    hide Consistent;
    if CanDispatch(q) {
      DispatchOneStarts(q, calls);
      DispatchOneKeeps(q, calls);
      DispatchSpares(DispatchOne(q), calls, id);
    }
  }

  lemma StepSpares(s: System, step: Step, id: nat)
    requires Inv(s) && Spared(s.q, id)
    ensures Spared(Apply(s, step).q, id)
  {
    hide Consistent, Dispatch;
    var q := s.q;
    match step
    case Submit(key) => RemovedIsKnown(q, s.calls, id);
    case Finish(j) =>
      if InPhase(s, j, Running) { FinishSpares(s, j, id); }
    case Cancel(key) =>
      var items := q.Waiting(key.member);
      var i := FindRequest(items, key.request);
      if key !in q.activeItems && i < |items| {
        CancelOneKeeps(q, i, key.member, s.calls);
        DispatchSpares(CancelOne(q, items[i]), s.calls, id);
      }
    case CancelMember(m) =>
      var q1 := q.(cancelled := q.cancelled + ActiveOf(q, m));
      CancelledIrrelevant(q, q1.cancelled, q1.closed, s.calls);
      CancelEachKeeps(q1, m, s.calls);
      CancelEachMarks(q1, q1.Waiting(m));
      DispatchSpares(CancelEach(q1, q1.Waiting(m)), s.calls, id);
    case SetLimits(l) =>
      LimitsIrrelevant(q, NormalizeLimits(l), s.calls);
      DispatchSpares(q.(limits := NormalizeLimits(l)), s.calls, id);
    case _ =>
  }

  lemma FinishSpares(s: System, j: nat, id: nat)
    requires Inv(s) && Spared(s.q, id) && InPhase(s, j, Running)
    ensures Spared(AfterExecute(s.q, s.calls[j].item), id)
  {
    hide Consistent, Dispatch;
    var it := s.calls[j].item;
    ReleaseKeeps(s.q, s.calls, j);
    DispatchSpares(Release(s.q, it), s.calls[j := Call(it, Returned(Ran))], id);
  }

  lemma RemovedIsKnown(q: Queue, calls: seq<Call>, id: nat)
    requires Consistent(q, calls) && id in q.removed
    ensures id < |calls| == q.nextId
  {
  }

  /** Work taken out of its queue without a slot is never started afterwards. */
  lemma {:induction false} RemovedNeverStarts(s: System, steps: seq<Step>, id: nat)
    requires Inv(s) && Spared(s.q, id)
    ensures Spared(Exec(s, steps).q, id)
    ensures forall it :: it in Exec(s, steps).q.started ==> it.id != id
    decreases |steps|
  {
    hide Apply, Spared, Consistent;
    if steps == [] {
      NotStarted(s, id);
    } else {
      StepSpares(s, steps[0], id);
      ApplyKeeps(s, steps[0]);
      RemovedNeverStarts(Apply(s, steps[0]), steps[1..], id);
    }
  }

  lemma NotStarted(s: System, id: nat)
    requires Inv(s) && Spared(s.q, id)
    ensures forall it :: it in s.q.started ==> it.id != id
  {
  }

  // ----- cancelling a member -----

  /** Dispatch gives no slot to a member with nothing waiting. */
  lemma {:induction false} DispatchOthers(q: Queue, calls: seq<Call>, m: string)
    requires Consistent(q, calls) && m !in q.queues
    ensures m !in Dispatch(q).queues && ActiveOf(Dispatch(q), m) == ActiveOf(q, m)
    decreases q.totalQueued, |q.rotation|
  {
    hide Consistent;
    if CanDispatch(q) {
      DispatchOneStarts(q, calls);
      DispatchOneKeeps(q, calls);
      var it := q.queues[q.rotation[0]][0];
      assert it.member != m && KeyOf(it) !in q.activeItems;
      assert ActiveOf(DispatchOne(q), m) == ActiveOf(q, m);
      DispatchOthers(DispatchOne(q), calls, m);
    }
  }

  /**
   Cancelling a member, from any reachable state: it has nothing waiting any more,
   exactly its active and waiting items are cancelled besides those cancelled
   before, and none of what was waiting starts in any continuation.
   */
  lemma CancelMemberStops(limits: Limits, before: seq<Step>, m: string, steps: seq<Step>)
    ensures var s := Exec(Init(limits), before);
      var s1 := Apply(s, CancelMember(m));
      && m !in s1.q.queues && ActiveOf(s1.q, m) == ActiveOf(s.q, m)
      && s1.q.cancelled == s.q.cancelled + ActiveOf(s.q, m) + Numbers(s.q.Waiting(m))
      && (forall it :: it in s.q.Waiting(m) ==> it !in Exec(s1, steps).q.started)
  {
    hide Consistent, ActiveOf, Dispatch, CancelEach, Init;
    InitInv(limits);
    ExecKeeps(Init(limits), before);
    var s := Exec(Init(limits), before);
    var s1 := Apply(s, CancelMember(m));
    var q1 := s.q.(cancelled := s.q.cancelled + ActiveOf(s.q, m));
    var q2 := CancelEach(q1, q1.Waiting(m));
    CancelledIrrelevant(s.q, q1.cancelled, q1.closed, s.calls);
    CancelEachKeeps(q1, m, s.calls);
    CancelEachMarks(q1, q1.Waiting(m));
    SameActive(s.q, q2, m);
    DispatchOthers(q2, s.calls, m);
    DispatchFrame(q2);
    ApplyKeeps(s, CancelMember(m));
    forall it | it in s.q.Waiting(m) ensures it !in Exec(s1, steps).q.started {
      WaitingIsUncharged(s.q, s.calls, m, it);
      DispatchSpares(q2, s.calls, it.id);
      RemovedNeverStarts(s1, steps, it.id);
    }
  }

  lemma SameActive(q: Queue, q2: Queue, m: string)
    requires q.activeItems == q2.activeItems
    ensures ActiveOf(q, m) == ActiveOf(q2, m)
  {
  }

  lemma WaitingIsUncharged(q: Queue, calls: seq<Call>, m: string, it: Item)
    requires Consistent(q, calls) && it in q.Waiting(m)
    ensures it.id !in q.dispatched && it.id in Numbers(q.Waiting(m))
  {
    assert IsWaiting(q, calls, m, it);
  }
}
