/**
 The host's admission queue as a value: every lock-protected section of the
 scheduler is one function from queue state to queue state.

 A queue item is identified by the number of its submission; the per-item flags
 `dispatched`, `removed` and `cancelled` are the sets of items that carry them.
 `started` and `released` record, in order, the items that were charged a slot
 and the items that gave one back.
 */
module FairQueue {

  const MINUTE := 60_000_000_000

  datatype Limits = Limits(
    maxActive: int,
    maxQueuedPerMember: int,
    maxQueuedTotal: int,
    queueTimeout: int,
    execTimeout: int)

  function NormalizeLimits(l: Limits): (r: Limits)
    ensures r.maxActive > 0 && r.maxQueuedPerMember > 0 && r.maxQueuedTotal > 0
    ensures r.queueTimeout > 0 && r.execTimeout > 0
  {
    Limits(
      if l.maxActive <= 0 then 1 else l.maxActive,
      if l.maxQueuedPerMember <= 0 then 1 else l.maxQueuedPerMember,
      if l.maxQueuedTotal <= 0 then 10 else l.maxQueuedTotal,
      if l.queueTimeout <= 0 then 5 * MINUTE else l.queueTimeout,
      if l.execTimeout <= 0 then 10 * MINUTE else l.execTimeout)
  }

  datatype Key = Key(member: string, request: string)

  datatype Item = Item(id: nat, member: string, request: string)

  function KeyOf(it: Item): Key {
    Key(it.member, it.request)
  }

  datatype Queue = Queue(
    limits: Limits,
    activeCount: int,
    totalQueued: int,
    memberQueued: map<string, int>,
    queues: map<string, seq<Item>>,
    rotation: seq<string>,
    activeItems: map<Key, Item>,
    closed: bool,
    dispatched: set<nat>,
    removed: set<nat>,
    cancelled: set<nat>,
    nextId: nat,
    started: seq<Item>,
    released: seq<Item>)
  {
    /** The items waiting for one member; a missing map entry reads as empty. */
    function Waiting(m: string): seq<Item> {
      if m in queues then queues[m] else []
    }

    function Depth(m: string): int {
      if m in memberQueued then memberQueued[m] else 0
    }
  }

  function New(limits: Limits): Queue {
    Queue(NormalizeLimits(limits), 0, 0, map[], map[], [], map[], false, {}, {}, {}, 0, [], [])
  }

  /** The sequence without its first occurrence of `x`. */
  function Without<T(==)>(s: seq<T>, x: T): seq<T> {
    if s == [] then [] else if s[0] == x then s[1..] else [s[0]] + Without(s[1..], x)
  }

  /** The queue depth map after one item of `m` left its queue. */
  function Lowered(depths: map<string, int>, m: string): map<string, int> {
    var d := (if m in depths then depths[m] else 0) - 1;
    if d <= 0 then depths - {m} else depths[m := d]
  }

  function Enqueue(q: Queue, it: Item): Queue {
    q.(rotation := if it.member in q.queues then q.rotation else q.rotation + [it.member],
       queues := q.queues[it.member := q.Waiting(it.member) + [it]],
       memberQueued := q.memberQueued[it.member := q.Depth(it.member) + 1],
       totalQueued := q.totalQueued + 1)
  }

  function Remove(q: Queue, it: Item): Queue {
    if it.id in q.removed then q else
    var items := Without(q.Waiting(it.member), it);
    q.(removed := q.removed + {it.id},
       memberQueued := Lowered(q.memberQueued, it.member),
       totalQueued := if q.totalQueued - 1 < 0 then 0 else q.totalQueued - 1,
       queues := if items == [] then q.queues - {it.member} else q.queues[it.member := items],
       rotation := if items == [] then Without(q.rotation, it.member) else q.rotation)
  }

  predicate CanDispatch(q: Queue) {
    q.activeCount < q.limits.maxActive && q.totalQueued > 0 && |q.rotation| > 0
  }

  /** One turn of the dispatch loop. */
  function DispatchOne(q: Queue): Queue
    requires CanDispatch(q)
  {
    var m := q.rotation[0];
    var items := q.Waiting(m);
    if items == [] then
      q.(rotation := q.rotation[1..], queues := q.queues - {m})
    else
      var next := items[0];
      var rest := items[1..];
      q.(queues := if rest == [] then q.queues - {m} else q.queues[m := rest],
         memberQueued := Lowered(q.memberQueued, m),
         totalQueued := q.totalQueued - 1,
         rotation := if rest == [] then q.rotation[1..] else q.rotation[1..] + [m],
         removed := q.removed + {next.id},
         dispatched := q.dispatched + {next.id},
         activeCount := q.activeCount + 1,
         activeItems := q.activeItems[KeyOf(next) := next],
         started := q.started + [next])
  }

  function Dispatch(q: Queue): Queue
    decreases q.totalQueued, |q.rotation|
  {
    if CanDispatch(q) then Dispatch(DispatchOne(q)) else q
  }

  datatype Admission =
    | QueueClosed
    | DuplicateRequest
    | MemberQueueFull
    | QueueOverflow
    | RunNow(item: Item)
    | MustWait(item: Item)

  predicate IsDuplicate(q: Queue, key: Key) {
    key in q.activeItems || exists i :: 0 <= i < |q.Waiting(key.member)| && q.Waiting(key.member)[i].request == key.request
  }

  /** What the admission section of Submit decides. */
  function Admit(q: Queue, key: Key): Admission {
    if q.closed then QueueClosed
    else if IsDuplicate(q, key) then DuplicateRequest
    else if q.Depth(key.member) >= q.limits.maxQueuedPerMember then MemberQueueFull
    else if q.totalQueued >= q.limits.maxQueuedTotal then QueueOverflow
    else
      var it := Item(q.nextId, key.member, key.request);
      if q.activeCount < q.limits.maxActive && q.totalQueued == 0 then RunNow(it) else MustWait(it)
  }

  /** Charges a slot without going through the rotation. */
  function Charge(q: Queue, it: Item): Queue {
    q.(activeCount := q.activeCount + 1,
       activeItems := q.activeItems[KeyOf(it) := it],
       dispatched := q.dispatched + {it.id},
       started := q.started + [it])
  }

  function AfterSubmit(q: Queue, key: Key): Queue {
    match Admit(q, key)
    case RunNow(it) => Charge(q.(nextId := q.nextId + 1), it)
    case MustWait(it) => Enqueue(q.(nextId := q.nextId + 1), it)
    case _ => q
  }

  function AfterClaimAbort(q: Queue, it: Item): Queue {
    if it.id in q.dispatched || it.id in q.removed then q else Remove(q, it)
  }

  /** Gives back the slot `it` holds, if the active table still names it. */
  function Release(q: Queue, it: Item): Queue {
    if KeyOf(it) in q.activeItems && q.activeItems[KeyOf(it)] == it then
      q.(activeItems := q.activeItems - {KeyOf(it)},
         activeCount := if q.activeCount - 1 < 0 then 0 else q.activeCount - 1,
         released := q.released + [it])
    else q
  }

  /** The closing section of execute, which also cancels the item's context. */
  function AfterExecute(q: Queue, it: Item): Queue {
    var q1 := if KeyOf(it) in q.activeItems && q.activeItems[KeyOf(it)] == it then Dispatch(Release(q, it)) else q;
    q1.(cancelled := q1.cancelled + {it.id})
  }

  function AfterSetLimits(q: Queue, l: Limits): Queue {
    Dispatch(q.(limits := NormalizeLimits(l)))
  }

  /** The position of the first item in `items` carrying `request`, or its length. */
  function FindRequest(items: seq<Item>, request: string): (i: nat)
    ensures i <= |items|
    ensures i < |items| ==> items[i].request == request
    ensures forall j :: 0 <= j < i ==> items[j].request != request
  {
    if items == [] || items[0].request == request then 0 else 1 + FindRequest(items[1..], request)
  }

  function CancelOne(q: Queue, it: Item): Queue {
    var q1 := Remove(q, it);
    q1.(cancelled := q1.cancelled + {it.id})
  }

  function AfterCancel(q: Queue, key: Key): Queue {
    if key in q.activeItems then q.(cancelled := q.cancelled + {q.activeItems[key].id})
    else
      var items := q.Waiting(key.member);
      var i := FindRequest(items, key.request);
      if i < |items| then Dispatch(CancelOne(q, items[i])) else q
  }

  function CancelEach(q: Queue, items: seq<Item>): Queue
    decreases items
  {
    if items == [] then q else CancelEach(CancelOne(q, items[0]), items[1..])
  }

  function ActiveOf(q: Queue, m: string): set<nat> {
    set k | k in q.activeItems && k.member == m :: q.activeItems[k].id
  }

  function AfterCancelMember(q: Queue, m: string): Queue {
    var q1 := q.(cancelled := q.cancelled + ActiveOf(q, m));
    Dispatch(CancelEach(q1, q1.Waiting(m)))
  }

  function ItemsOf(queues: map<string, seq<Item>>): set<Item> {
    set m, it | m in queues && it in queues[m] :: it
  }

  function AllQueued(q: Queue): set<Item> {
    ItemsOf(q.queues)
  }

  function AfterClose(q: Queue): Queue {
    q.(closed := true,
       cancelled := q.cancelled
         + (set k | k in q.activeItems :: q.activeItems[k].id)
         + (set it | it in AllQueued(q) :: it.id))
  }
}
