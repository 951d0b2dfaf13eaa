/**
 The admission queue as the program keeps it: an object whose lock-protected
 methods update counters, tables and the rotation in place. Every method is
 proved to change the object exactly as the corresponding step of FairQueue.
 */
module Scheduler {
  import Q = FairQueue
  import opened FairQueueInvariant

  lemma {:induction false} WithoutAbsent<T>(s: seq<T>, x: T)
    requires x !in s
    ensures Q.Without(s, x) == s
  {
    if s != [] { WithoutAbsent(s[1..], x); }
  }

  lemma {:induction false} FindRequestAt(items: seq<Q.Item>, request: string, k: nat)
    requires k <= |items|
    requires forall j :: 0 <= j < k ==> items[j].request != request
    requires k < |items| ==> items[k].request == request
    ensures Q.FindRequest(items, request) == k
  {
  }

  class FairQueue {
    var limits: Q.Limits
    var activeCount: int
    var totalQueued: int
    var memberQueued: map<string, int>
    var queues: map<string, seq<Q.Item>>
    var rotation: seq<string>
    var activeItems: map<Q.Key, Q.Item>
    var closed: bool
    var dispatched: set<nat>
    var removed: set<nat>
    var cancelled: set<nat>
    var nextId: nat
    ghost var started: seq<Q.Item>
    ghost var released: seq<Q.Item>

    ghost function State(): Q.Queue
      reads this
    {
      Q.Queue(limits, activeCount, totalQueued, memberQueued, queues, rotation, activeItems, closed,
              dispatched, removed, cancelled, nextId, started, released)
    }

    constructor (l: Q.Limits)
      ensures State() == Q.New(l)
    {
      limits := Q.NormalizeLimits(l);
      activeCount, totalQueued := 0, 0;
      memberQueued, queues, rotation, activeItems := map[], map[], [], map[];
      closed := false;
      dispatched, removed, cancelled := {}, {}, {};
      nextId := 0;
      started, released := [], [];
    }

    method EnqueueLocked(it: Q.Item)
      modifies this
      ensures State() == Q.Enqueue(old(State()), it)
    {
      if it.member !in queues {
        rotation := rotation + [it.member];
        queues := queues[it.member := []];
      }
      queues := queues[it.member := queues[it.member] + [it]];
      memberQueued := memberQueued[it.member := (if it.member in memberQueued then memberQueued[it.member] else 0) + 1];
      totalQueued := totalQueued + 1;
    }

    method DropFromRotationLocked(m: string)
      modifies this`rotation
      ensures rotation == Q.Without(old(rotation), m)
    {
      for i := 0 to |rotation|
        invariant rotation == old(rotation)
        invariant m !in rotation[..i]
      {
        if rotation[i] == m {
          WithoutAt(rotation, m, i);
          rotation := rotation[..i] + rotation[i + 1..];
          return;
        }
      }
      WithoutAbsent(rotation, m);
    }

    method LowerDepthLocked(m: string)
      modifies this`memberQueued
      ensures memberQueued == Q.Lowered(old(memberQueued), m)
    {
      var d := (if m in memberQueued then memberQueued[m] else 0) - 1;
      memberQueued := memberQueued[m := d];
      if d <= 0 {
        memberQueued := memberQueued - {m};
      }
    }

    /** Takes the target out of its member's queue, wherever it stands. */
    method TakeFromQueueLocked(target: Q.Item)
      modifies this`queues
      ensures target.member in old(queues) ==>
        queues == old(queues)[target.member := Q.Without(old(queues)[target.member], target)]
      ensures target.member !in old(queues) ==> queues == old(queues)
    {
      var m := target.member;
      if m in queues {
        var items := queues[m];
        for i := 0 to |items|
          invariant queues == old(queues)
          invariant target !in items[..i]
        {
          if items[i] == target {
            WithoutAt(items, target, i);
            queues := queues[m := items[..i] + items[i + 1..]];
            return;
          }
        }
        WithoutAbsent(items, target);
        assert queues[m := items] == queues;
      }
    }

    /** Takes the target out of its queue and forgets a member whose queue ran empty. */
    method DequeueLocked(target: Q.Item)
      modifies this`queues, this`rotation
      ensures var m := target.member;
        var items := Q.Without(if m in old(queues) then old(queues)[m] else [], target);
        && queues == (if items == [] then old(queues) - {m} else old(queues)[m := items])
        && rotation == (if items == [] then Q.Without(old(rotation), m) else old(rotation))
    {
      var m := target.member;
      TakeFromQueueLocked(target);
      if m !in queues || queues[m] == [] {
        queues := queues - {m};
        DropFromRotationLocked(m);
      }
    }

    method RemoveLocked(target: Q.Item)
      modifies this
      ensures State() == Q.Remove(old(State()), target)
    {
      hide Q.Without, Q.Lowered;
      if target.id !in removed {
        removed := removed + {target.id};
        DequeueLocked(target);
        LowerDepthLocked(target.member);
        totalQueued := if totalQueued - 1 < 0 then 0 else totalQueued - 1;
      }
    }

    /** Charges a slot to an item leaving its queue. */
    method StartLocked(next: Q.Item)
      modifies this`removed, this`dispatched, this`activeCount, this`activeItems, this`started
      ensures removed == old(removed) + {next.id} && dispatched == old(dispatched) + {next.id}
      ensures activeCount == old(activeCount) + 1 && activeItems == old(activeItems)[Q.KeyOf(next) := next]
      ensures started == old(started) + [next]
    {
      removed := removed + {next.id};
      dispatched := dispatched + {next.id};
      activeCount := activeCount + 1;
      activeItems := activeItems[Q.KeyOf(next) := next];
      started := started + [next];
    }

    /** One turn of the dispatch loop. */
    method DispatchTurnLocked()
      requires Q.CanDispatch(State())
      modifies this
      ensures State() == Q.DispatchOne(old(State()))
    {
      var m := rotation[0];
      var items := if m in queues then queues[m] else [];
      if items == [] {
        rotation, queues := rotation[1..], queues - {m};
      } else {
        TakeHeadLocked(m, items[1..]);
        StartLocked(items[0]);
      }
    }

    /** The head member goes to the back if it still has work waiting, and is forgotten otherwise. */
    method TakeHeadLocked(m: string, rest: seq<Q.Item>)
      requires |rotation| > 0
      modifies this`queues, this`rotation, this`memberQueued, this`totalQueued
      ensures queues == if rest == [] then old(queues) - {m} else old(queues)[m := rest]
      ensures rotation == if rest == [] then old(rotation)[1..] else old(rotation)[1..] + [m]
      ensures memberQueued == Q.Lowered(old(memberQueued), m) && totalQueued == old(totalQueued) - 1
    {
      queues := queues[m := rest];
      LowerDepthLocked(m);
      totalQueued := totalQueued - 1;
      rotation := rotation[1..];
      if rest != [] {
        rotation := rotation + [m];
      } else {
        queues := queues - {m};
      }
    }

    /** Hands free slots to waiting members in rotation order. */
    method DispatchNextLocked()
      modifies this
      ensures State() == Q.Dispatch(old(State()))
    {
      while activeCount < limits.maxActive && totalQueued > 0 && |rotation| > 0
        invariant Q.Dispatch(State()) == Q.Dispatch(old(State()))
        decreases totalQueued, |rotation|
      {
        DispatchTurnLocked();
      }
    }

    method SetLimits(l: Q.Limits)
      modifies this
      ensures State() == Q.AfterSetLimits(old(State()), l)
    {
      limits := Q.NormalizeLimits(l);
      DispatchNextLocked();
    }

    method IsDuplicateLocked(key: Q.Key) returns (found: bool)
      ensures found <==> Q.IsDuplicate(State(), key)
    {
      if key in activeItems {
        return true;
      }
      var items := if key.member in queues then queues[key.member] else [];
      for i := 0 to |items|
        invariant forall j :: 0 <= j < i ==> items[j].request != key.request
      {
        if items[i].request == key.request {
          assert State().Waiting(key.member)[i].request == key.request;
          return true;
        }
      }
      found := false;
    }

    /** The admission section of Submit. */
    method Admit(key: Q.Key) returns (a: Q.Admission)
      modifies this
      ensures a == Q.Admit(old(State()), key)
      ensures State() == Q.AfterSubmit(old(State()), key)
    {
      var duplicate := IsDuplicateLocked(key);
      if closed {
        return Q.QueueClosed;
      } else if duplicate {
        return Q.DuplicateRequest;
      } else if (if key.member in memberQueued then memberQueued[key.member] else 0) >= limits.maxQueuedPerMember {
        return Q.MemberQueueFull;
      } else if totalQueued >= limits.maxQueuedTotal {
        return Q.QueueOverflow;
      }
      a := AcceptLocked(key);
    }

    /** Creates the item of an acceptable request and runs it at once or queues it. */
    method AcceptLocked(key: Q.Key) returns (a: Q.Admission)
      modifies this
      ensures var q := old(State());
        var it := Q.Item(q.nextId, key.member, key.request);
        var q1 := q.(nextId := q.nextId + 1);
        if q.activeCount < q.limits.maxActive && q.totalQueued == 0
        then a == Q.RunNow(it) && State() == Q.Charge(q1, it)
        else a == Q.MustWait(it) && State() == Q.Enqueue(q1, it)
    {
      var it := Q.Item(nextId, key.member, key.request);
      nextId := nextId + 1;
      if activeCount < limits.maxActive && totalQueued == 0 {
        activeCount := activeCount + 1;
        activeItems := activeItems[key := it];
        dispatched := dispatched + {it.id};
        started := started + [it];
        a := Q.RunNow(it);
      } else {
        EnqueueLocked(it);
        a := Q.MustWait(it);
      }
    }

    /** Whether a waiter may abandon its item; false means it holds a slot and must run. */
    method ClaimAbort(it: Q.Item) returns (ok: bool)
      modifies this
      ensures ok <==> it.id !in old(dispatched)
      ensures State() == Q.AfterClaimAbort(old(State()), it)
    {
      if it.id in dispatched {
        return false;
      }
      if it.id in removed {
        return true;
      }
      RemoveLocked(it);
      ok := true;
    }

    /** The closing section of execute. */
    method CloseExecution(it: Q.Item)
      modifies this
      ensures State() == Q.AfterExecute(old(State()), it)
    {
      var key := Q.Key(it.member, it.request);
      if key in activeItems && activeItems[key] == it {
        activeItems := activeItems - {key};
        activeCount := activeCount - 1;
        if activeCount < 0 {
          activeCount := 0;
        }
        released := released + [it];
        DispatchNextLocked();
      }
      cancelled := cancelled + {it.id};
    }

    method Cancel(request: string, member: string) returns (found: bool)
      modifies this
      ensures State() == Q.AfterCancel(old(State()), Q.Key(member, request))
      ensures found <==> Q.IsDuplicate(old(State()), Q.Key(member, request))
    {
      var key := Q.Key(member, request);
      if key in activeItems {
        cancelled := cancelled + {activeItems[key].id};
        return true;
      }
      var items := if member in queues then queues[member] else [];
      for i := 0 to |items|
        invariant State() == old(State())
        invariant forall j :: 0 <= j < i ==> items[j].request != request
      {
        if items[i].request == request {
          FindRequestAt(items, request, i);
          RemoveLocked(items[i]);
          cancelled := cancelled + {items[i].id};
          DispatchNextLocked();
          return true;
        }
      }
      FindRequestAt(items, request, |items|);
      found := false;
    }

    /** Cancels the context of every active item of the member, in no particular order. */
    method CancelActiveLocked(member: string) returns (count: nat)
      modifies this`cancelled
      ensures cancelled == old(cancelled) + Q.ActiveOf(old(State()), member)
      ensures count == |set k | k in activeItems && k.member == member|
    {
      var keys := activeItems.Keys;
      var mine: set<Q.Key> := {};
      while keys != {}
        invariant keys <= activeItems.Keys
        invariant mine == set k | k in activeItems.Keys - keys && k.member == member
        invariant cancelled == old(cancelled) + (set k | k in mine :: activeItems[k].id)
        decreases keys
      {
        var k :| k in keys;
        keys := keys - {k};
        if k.member == member {
          cancelled := cancelled + {activeItems[k].id};
          mine := mine + {k};
        }
      }
      assert mine == set k | k in activeItems && k.member == member;
      count := |mine|;
    }

    method CancelMember(member: string) returns (count: nat)
      modifies this
      ensures State() == Q.AfterCancelMember(old(State()), member)
      ensures count == |set k | k in old(activeItems) && k.member == member| + |old(State()).Waiting(member)|
    {
      var active := CancelActiveLocked(member);
      ghost var q1 := State();
      var items := if member in queues then queues[member] else [];
      for i := 0 to |items|
        invariant Q.CancelEach(State(), items[i..]) == Q.CancelEach(q1, items)
      {
        ghost var was := State();
        RemoveLocked(items[i]);
        cancelled := cancelled + {items[i].id};
        assert State() == Q.CancelOne(was, items[i]);
        assert items[i..][1..] == items[i + 1..];
      }
      DispatchNextLocked();
      count := active + |items|;
    }

    method Stats() returns (active: int, queued: int)
      ensures active == activeCount && queued == totalQueued
    {
      active, queued := activeCount, totalQueued;
    }

    method CancelQueueLocked(items: seq<Q.Item>)
      modifies this`cancelled
      ensures cancelled == old(cancelled) + (set it | it in items :: it.id)
    {
      for i := 0 to |items|
        invariant cancelled == old(cancelled) + (set it | it in items[..i] :: it.id)
      {
        assert items[..i + 1] == items[..i] + [items[i]];
        cancelled := cancelled + {items[i].id};
      }
      assert items[..|items|] == items;
    }

    method CancelQueuesLocked()
      modifies this`cancelled
      ensures cancelled == old(cancelled) + (set it | it in Q.ItemsOf(queues) :: it.id)
    {
      var members := queues.Keys;
      ghost var done: set<Q.Item> := {};
      while members != {}
        invariant members <= queues.Keys
        invariant done == set m, it | m in queues.Keys - members && it in queues[m] :: it
        invariant cancelled == old(cancelled) + (set it | it in done :: it.id)
        decreases members
      {
        var m :| m in members;
        CancelQueueLocked(queues[m]);
        members := members - {m};
        done := done + (set it | it in queues[m]);
      }
      assert done == Q.ItemsOf(queues);
    }

    method Close()
      modifies this`closed, this`cancelled
      ensures State() == Q.AfterClose(old(State()))
    {
      closed := true;
      var keys := activeItems.Keys;
      while keys != {}
        invariant closed && keys <= activeItems.Keys
        invariant cancelled == old(cancelled) + (set k | k in activeItems.Keys - keys :: activeItems[k].id)
        decreases keys
      {
        var k :| k in keys;
        cancelled := cancelled + {activeItems[k].id};
        keys := keys - {k};
      }
      assert cancelled == old(cancelled) + (set k | k in activeItems :: activeItems[k].id);
      CancelQueuesLocked();
    }
  }
}
