/**
 What Submit and Cancel answer, in terms of the tables alone: which requests are
 taken in and which of the refusals the others get, what starts at once, which item
 a cancel hits, and which limits are in force.
 */
module FairQueueAdmission {
  import opened FairQueue
  import opened FairQueueInvariant
  import opened FairQueueTheorems
  import opened FairQueueCancellation

  /** An active or waiting item of that member carries that request id. */
  ghost predicate InUse(q: Queue, member: string, request: string) {
    || (exists k :: k in q.activeItems && q.activeItems[k].member == member && q.activeItems[k].request == request)
    || (exists it :: it in AllQueued(q) && it.member == member && it.request == request)
  }

  ghost predicate RoomFor(q: Queue, member: string) {
    |q.Waiting(member)| < q.limits.maxQueuedPerMember && |AllQueued(q)| < q.limits.maxQueuedTotal
  }

  lemma DuplicateIsInUse(q: Queue, calls: seq<Call>, key: Key)
    requires Consistent(q, calls)
    ensures IsDuplicate(q, key) <==> InUse(q, key.member, key.request)
  {
    hide Counters, Rotation, QueuesOrdered, Phases, Started, StartOrder, StartedBefore, Released;
    if IsDuplicate(q, key) {
      if key in q.activeItems {
        assert key == KeyOf(q.activeItems[key]);
      } else {
        var i :| 0 <= i < |q.Waiting(key.member)| && q.Waiting(key.member)[i].request == key.request;
        WaitingFact(q, calls, key.member, i);
        assert q.queues[key.member][i] in q.queues[key.member];
        assert q.Waiting(key.member)[i] in AllQueued(q);
      }
    }
    if InUse(q, key.member, key.request) {
      if k :| k in q.activeItems && q.activeItems[k].member == key.member && q.activeItems[k].request == key.request {
        assert k == KeyOf(q.activeItems[k]) == key;
      } else {
        var it :| it in AllQueued(q) && it.member == key.member && it.request == key.request;
        QueuedInPlace(q, calls, it);
      }
    }
  }

  lemma QueuedInPlace(q: Queue, calls: seq<Call>, it: Item)
    requires Consistent(q, calls) && it in AllQueued(q)
    ensures exists i :: 0 <= i < |q.Waiting(it.member)| && q.Waiting(it.member)[i] == it
  {
    var m :| m in q.queues && it in q.queues[m];
    assert IsWaiting(q, calls, m, it);
    var i :| 0 <= i < |q.queues[m]| && q.queues[m][i] == it;
    assert q.Waiting(it.member)[i] == it;
  }

  lemma DepthsAre(q: Queue, calls: seq<Call>, m: string)
    requires Consistent(q, calls)
    ensures q.Depth(m) == |q.Waiting(m)| && q.totalQueued == |AllQueued(q)| && q.activeCount == |q.activeItems|
  {
    hide Rotation, Queued, QueuesOrdered, Active, Phases, Started, StartOrder, StartedBefore, Released;
  }

  /** Which answer Submit gives in any reachable state. */
  lemma AnswerExactly(limits: Limits, steps: seq<Step>, key: Key)
    ensures var q := Exec(Init(limits), steps).q;
      var inUse := InUse(q, key.member, key.request);
      && (Admit(q, key) == QueueClosed <==> q.closed)
      && (Admit(q, key) == DuplicateRequest <==> !q.closed && inUse)
      && (Admit(q, key) == MemberQueueFull <==> !q.closed && !inUse && |q.Waiting(key.member)| >= q.limits.maxQueuedPerMember)
      && (Admit(q, key) == QueueOverflow <==>
            !q.closed && !inUse && |q.Waiting(key.member)| < q.limits.maxQueuedPerMember && |AllQueued(q)| >= q.limits.maxQueuedTotal)
      && (Admit(q, key).RunNow? || Admit(q, key).MustWait? <==> !q.closed && !inUse && RoomFor(q, key.member))
  {
    hide Consistent, IsDuplicate, InUse;
    InitInv(limits);
    ExecKeeps(Init(limits), steps);
    var s := Exec(Init(limits), steps);
    DuplicateIsInUse(s.q, s.calls, key);
    DepthsAre(s.q, s.calls, key.member);
  }

  /** What a request that is taken in becomes. */
  ghost predicate TakenIn(s: System, s2: System, key: Key) {
    && |s2.calls| == |s.calls| + 1 && s2.calls[..|s.calls|] == s.calls
    && var it := Item(|s.calls|, key.member, key.request);
       var now := AllQueued(s.q) == {} && |s.q.activeItems| < s.q.limits.maxActive;
       && s2.calls[|s.calls|] == Call(it, if now then Running else Waiting)
       && (now ==> s2.q.started == s.q.started + [it] && HoldsSlot(s2.q.activeItems, it))
       && (!now ==> s2.q.started == s.q.started && s2.q.Waiting(key.member) == s.q.Waiting(key.member) + [it])
  }

  /**
   A Submit is taken in exactly when the queue is open, no active or waiting item has
   that member and request, and both queues have room; it then runs at once exactly
   when nothing waits and a slot is free. Otherwise nothing changes.
   */
  lemma SubmitAcceptsExactly(limits: Limits, steps: seq<Step>, key: Key)
    ensures var s := Exec(Init(limits), steps);
      var s2 := Apply(s, Submit(key));
      var fits := !s.q.closed && !InUse(s.q, key.member, key.request) && RoomFor(s.q, key.member);
      && (fits ==> TakenIn(s, s2, key))
      && (!fits ==> s2 == s)
  {
    hide Consistent, IsDuplicate, InUse, RoomFor;
    AnswerExactly(limits, steps, key);
    InitInv(limits);
    ExecKeeps(Init(limits), steps);
    var s := Exec(Init(limits), steps);
    DepthsAre(s.q, s.calls, key.member);
    NextNumber(s.q, s.calls);
    assert |AllQueued(s.q)| == 0 <==> AllQueued(s.q) == {};
  }

  lemma NextNumber(q: Queue, calls: seq<Call>)
    requires Consistent(q, calls)
    ensures q.nextId == |calls|
  {
  }

  // ----- cancelling one request -----

  lemma {:induction false} DispatchRemoves(q: Queue)
    ensures forall id :: id in Dispatch(q).removed ==> id in q.removed || id in Dispatch(q).dispatched
    decreases q.totalQueued, |q.rotation|
  {
    if CanDispatch(q) {
      DispatchRemoves(DispatchOne(q));
      DispatchFrame(DispatchOne(q));
    }
  }

  /** A waiting item other than the one removed is still waiting after dispatch, or has started. */
  lemma StillServed(q: Queue, q2: Queue, calls: seq<Call>, gone: Item, x: Item)
    requires Consistent(q, calls) && Consistent(q2, calls) && x in AllQueued(q) && x != gone && gone in AllQueued(q)
    requires forall id :: id in q2.removed ==> id in q.removed || id == gone.id || id in q2.dispatched
    ensures x in AllQueued(q2) || x in q2.started
  {
    hide Counters, Rotation, QueuesOrdered, Active, StartOrder, StartedBefore, Released;
    WaitingCall(q, calls, x);
    WaitingCall(q, calls, gone);
    AccountedFact(q2, calls, x.id);
    if x.id !in q2.dispatched {
      assert x in q2.Waiting(x.member);
    }
  }

  lemma WaitingCall(q: Queue, calls: seq<Call>, it: Item)
    requires Consistent(q, calls) && it in AllQueued(q)
    ensures Known(calls, it) && calls[it.id].phase == Waiting && it.id !in q.dispatched && it.id !in q.removed
  {
    var m :| m in q.queues && it in q.queues[m];
    assert IsWaiting(q, calls, m, it);
  }

  /** What cancelling the waiting item leaves. */
  ghost predicate CancelledOut(q: Queue, q2: Queue, it: Item) {
    && it !in AllQueued(q2) && Spared(q2, it.id) && q2.cancelled == q.cancelled + {it.id}
    && forall x :: x in AllQueued(q) && x != it ==> x in AllQueued(q2) || x in q2.started
  }

  lemma CancelQueuedOut(q: Queue, calls: seq<Call>, it: Item, i: nat)
    requires Consistent(q, calls) && it in AllQueued(q) && i < |q.Waiting(it.member)| && q.Waiting(it.member)[i] == it
    ensures CancelledOut(q, Dispatch(CancelOne(q, it)), it)
  {
    hide Consistent, AllQueued;
    WaitingCall(q, calls, it);
    CancelOneKeeps(q, i, it.member, calls);
    var q1 := CancelOne(q, it);
    DispatchKeeps(q1, calls);
    DispatchSpares(q1, calls, it.id);
    DispatchFrame(q1);
    DispatchRemoves(q1);
    var q2 := Dispatch(q1);
    assert it !in AllQueued(q2) by { if it in AllQueued(q2) { WaitingCall(q2, calls, it); } }
    forall x | x in AllQueued(q) && x != it ensures x in AllQueued(q2) || x in q2.started {
      StillServed(q, q2, calls, it, x);
    }
  }

  /**
   Cancel acts on exactly the item that has the member and request, in any reachable
   state: an active one has its context cancelled and nothing else changes; a waiting
   one leaves its queue, is cancelled and never starts, while every other waiting item
   still waits or has started; and when there is none nothing changes.
   */
  lemma CancelHitsExactly(limits: Limits, steps: seq<Step>, key: Key, it: Item, rest: seq<Step>)
    requires it.member == key.member && it.request == key.request
    ensures var s := Exec(Init(limits), steps);
      var s1 := Apply(s, Cancel(key));
      && (HoldsSlot(s.q.activeItems, it) ==> s1 == s.(q := s.q.(cancelled := s.q.cancelled + {it.id})))
      && (it in AllQueued(s.q) ==> CancelledOut(s.q, s1.q, it) && it !in Exec(s1, rest).q.started)
      && (!InUse(s.q, key.member, key.request) ==> s1 == s)
  {
    hide Consistent, InUse, AllQueued, CancelledOut;
    InitInv(limits);
    ExecKeeps(Init(limits), steps);
    var s := Exec(Init(limits), steps);
    var s1 := Apply(s, Cancel(key));
    DuplicateIsInUse(s.q, s.calls, key);
    if it in AllQueued(s.q) {
      QueuedInPlace(s.q, s.calls, it);
      QueuedNotActive(s.q, s.calls, it);
      var i := FindRequest(s.q.Waiting(it.member), it.request);
      FoundInPlace(s.q, s.calls, it, i);
      CancelQueuedOut(s.q, s.calls, it, i);
      ApplyKeeps(s, Cancel(key));
      CancelledSpared(s.q, s1.q, it);
      RemovedNeverStarts(s1, rest, it.id);
    }
  }

  lemma CancelledSpared(q: Queue, q2: Queue, it: Item)
    requires CancelledOut(q, q2, it)
    ensures Spared(q2, it.id)
  {
  }

  lemma QueuedNotActive(q: Queue, calls: seq<Call>, it: Item)
    requires Consistent(q, calls) && it in AllQueued(q)
    ensures KeyOf(it) !in q.activeItems
  {
    var m :| m in q.queues && it in q.queues[m];
    assert IsWaiting(q, calls, m, it);
  }

  /** Requests are unique in one member's queue, so the search finds the very item. */
  lemma FoundInPlace(q: Queue, calls: seq<Call>, it: Item, i: nat)
    requires Consistent(q, calls) && i == FindRequest(q.Waiting(it.member), it.request)
    requires exists j :: 0 <= j < |q.Waiting(it.member)| && q.Waiting(it.member)[j] == it
    ensures i < |q.Waiting(it.member)| && q.Waiting(it.member)[i] == it
  {
    var items := q.Waiting(it.member);
    var j :| 0 <= j < |items| && items[j] == it;
    assert Ordered(items);
  }

  // ----- limits -----

  /** The limits given last. */
  function LastLimits(limits: Limits, steps: seq<Step>): Limits
    decreases |steps|
  {
    if steps == [] then limits else LastLimits(if steps[0].SetLimits? then steps[0].limits else limits, steps[1..])
  }

  /** Every positive limit is kept as given, every other replaced by its default. */
  ghost predicate InForce(given: Limits, l: Limits) {
    && l.maxActive == (if given.maxActive > 0 then given.maxActive else 1)
    && l.maxQueuedPerMember == (if given.maxQueuedPerMember > 0 then given.maxQueuedPerMember else 1)
    && l.maxQueuedTotal == (if given.maxQueuedTotal > 0 then given.maxQueuedTotal else 10)
    && l.queueTimeout == (if given.queueTimeout > 0 then given.queueTimeout else 300_000_000_000)
    && l.execTimeout == (if given.execTimeout > 0 then given.execTimeout else 600_000_000_000)
  }

  lemma {:induction false} DispatchKeepsLimits(q: Queue)
    ensures Dispatch(q).limits == q.limits
    decreases q.totalQueued, |q.rotation|
  {
    if CanDispatch(q) { DispatchKeepsLimits(DispatchOne(q)); }
  }

  lemma StepLimits(s: System, step: Step, given: Limits)
    requires InForce(given, s.q.limits)
    ensures InForce(if step.SetLimits? then step.limits else given, Apply(s, step).q.limits)
  {
    hide Dispatch;
    match step
    case Finish(id) => if InPhase(s, id, Running) { DispatchKeepsLimits(Release(s.q, s.calls[id].item)); }
    case Cancel(key) =>
      var items := s.q.Waiting(key.member);
      var i := FindRequest(items, key.request);
      if key !in s.q.activeItems && i < |items| { DispatchKeepsLimits(CancelOne(s.q, items[i])); }
    case CancelMember(m) =>
      var q1 := s.q.(cancelled := s.q.cancelled + ActiveOf(s.q, m));
      CancelEachFrame(q1, q1.Waiting(m));
      DispatchKeepsLimits(CancelEach(q1, q1.Waiting(m)));
    case SetLimits(l) => DispatchKeepsLimits(s.q.(limits := NormalizeLimits(l)));
    case _ =>
  }

  lemma {:induction false} LimitsFrom(s: System, steps: seq<Step>, given: Limits)
    requires InForce(given, s.q.limits)
    ensures InForce(LastLimits(given, steps), Exec(s, steps).q.limits)
    decreases |steps|
  {
    hide Apply, InForce;
    if steps != [] {
      StepLimits(s, steps[0], given);
      LimitsFrom(Apply(s, steps[0]), steps[1..], if steps[0].SetLimits? then steps[0].limits else given);
    }
  }

  /** In every reachable state the limits in force are the ones given last, with defaults for those not positive. */
  lemma LimitsInForce(limits: Limits, steps: seq<Step>)
    ensures InForce(LastLimits(limits, steps), Exec(Init(limits), steps).q.limits)
  {
    LimitsFrom(Init(limits), steps, limits);
  }

  // ----- shutdown -----

  lemma {:induction false} DispatchKeepsClosed(q: Queue)
    ensures Dispatch(q).closed == q.closed
    decreases q.totalQueued, |q.rotation|
  {
    if CanDispatch(q) { DispatchKeepsClosed(DispatchOne(q)); }
  }

  lemma StepClosed(s: System, step: Step)
    ensures Apply(s, step).q.closed == (s.q.closed || step.Close?)
  {
    hide Dispatch;
    match step
    case Finish(id) => if InPhase(s, id, Running) { DispatchKeepsClosed(Release(s.q, s.calls[id].item)); }
    case Cancel(key) =>
      var items := s.q.Waiting(key.member);
      var i := FindRequest(items, key.request);
      if key !in s.q.activeItems && i < |items| { DispatchKeepsClosed(CancelOne(s.q, items[i])); }
    case CancelMember(m) =>
      var q1 := s.q.(cancelled := s.q.cancelled + ActiveOf(s.q, m));
      CancelEachFrame(q1, q1.Waiting(m));
      DispatchKeepsClosed(CancelEach(q1, q1.Waiting(m)));
    case SetLimits(l) => DispatchKeepsClosed(s.q.(limits := NormalizeLimits(l)));
    case _ =>
  }

  /** The run closes the queue. */
  predicate Closes(steps: seq<Step>) {
    exists i :: 0 <= i < |steps| && steps[i].Close?
  }

  lemma ClosesLater(steps: seq<Step>)
    requires steps != []
    ensures Closes(steps) <==> steps[0].Close? || Closes(steps[1..])
  {
    assert forall i :: 0 <= i < |steps[1..]| ==> steps[1..][i] == steps[i + 1];
    assert forall i :: 1 <= i < |steps| ==> steps[i] == steps[1..][i - 1];
  }

  lemma {:induction false} ClosedFrom(s: System, steps: seq<Step>)
    ensures Exec(s, steps).q.closed <==> s.q.closed || Closes(steps)
    decreases |steps|
  {
    hide Apply;
    if steps != [] {
      StepClosed(s, steps[0]);
      ClosedFrom(Apply(s, steps[0]), steps[1..]);
      ClosesLater(steps);
    }
  }

  /** A queue is closed exactly when the run closed it, and then for good. */
  lemma ClosedExactly(limits: Limits, steps: seq<Step>)
    ensures Exec(Init(limits), steps).q.closed <==> Closes(steps)
  {
    ClosedFrom(Init(limits), steps);
  }
}
