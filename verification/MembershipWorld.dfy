/**
 The room as a system of nodes. The creator's handlers issue versioned records;
 every node applies whatever verified records reach it, in any order and from
 anyone. No lock spans any of this: a handler reads the room version, saves the
 member row and stores the room version in separate steps; a sync tests an update
 against the row held, saves it later, and stores a watermark later still; a joining
 node saves the roster it was answered record by record. Everything else may happen
 in between. A run is any sequence of these steps over any number of nodes.
 */
module MembershipWorld {
  import opened Membership

  /**
   A node's roster and room version. `past` records the room versions it has
   stored; a handler or sync that began earlier still works from one of them.
   `marks` are the watermarks its syncs have computed, `seen` the records it saved.
   */
  datatype Node = Node(rows: Rows, version: int, past: set<int>, marks: set<int>, seen: set<Record>)

  /** A row some sync or joining node has decided to save. */
  datatype Write = Write(node: string, record: Record)

  /** The creator's answer to a joining node: the version of its membership, and the records sent. */
  datatype Answer = Answer(node: string, version: int, records: seq<Record>, used: bool)

  /** A request to the creator: to join, or of the owner to approve or remove a member. */
  datatype Op =
    | Join(device: string, name: string, approval: bool)
    | Approve(member: string)
    | Remove(member: string)

  datatype Stage = Signed | RowSaved | Finished

  /** A handler under way: the record it signed and how far it got. */
  datatype Handler = Handler(record: Record, stage: Stage)

  /** `top` is the highest version issued; no node stores it. */
  datatype World = World(
    room: string,
    creator: string,
    nodes: map<string, Node>,
    issued: set<Record>,
    top: int,
    handlers: seq<Handler>,
    writes: multiset<Write>,
    answers: seq<Answer>)

  datatype Step =
    | Begin(op: Op, known: int)                              // having read room version `known`, reads the row and signs
    | SaveRow(h: nat)
    | SaveRoom(h: nat)
    | Rewrite(known: int)                                    // an owner setting is stored with the room version read earlier
    | Reply(node: string, own: Record, roster: seq<Record>)  // the creator answers an admitted node with its roster
    | Enter(a: nat)                                          // the node stores the room and sets out to save the answer
    | Leave(node: string)
    | Test(node: string, update: Record)                     // a sync finds the update newer than the row held
    | SaveUpdate(write: Write)                               // a row decided on is saved, whatever is held by now
    | Mark(node: string)                                     // a sync computes the watermark
    | StoreMark(node: string, mark: int, known: int)         // a sync that read room version `known` stores a watermark

  const MEMBER_KEY_LENGTH := 16

  function MemberId(device: string): string
    requires |device| >= MEMBER_KEY_LENGTH
  {
    "m-" + device[..MEMBER_KEY_LENGTH]
  }

  /** What hosting a room is refused without. */
  predicate CanHost(room: string, device: string, name: string) {
    |device| >= MEMBER_KEY_LENGTH && room != "" && name != ""
  }

  /** Hosting a room: the creator is its first admitted member, at version one. */
  function Host(room: string, creator: string, device: string, name: string): World
    requires CanHost(room, device, name)
  {
    var first := Record(MemberId(device), room, device, name, Admitted, 1);
    World(room, creator, map[creator := Node(map[first.member := first], 1, {1}, {}, {first})], {first}, 1, [], multiset{}, [])
  }

  predicate Allowed(rows: Rows, op: Op) {
    match op
    case Join(device, name, _) => |device| >= MEMBER_KEY_LENGTH && name != "" && MemberId(device) !in rows
    case Approve(member) => member in rows && rows[member].status == Pending
    case Remove(member) => member in rows
  }

  /** The record a handler signs: one above the room version it read. */
  function Draft(room: string, rows: Rows, op: Op, known: int): Record
    requires Allowed(rows, op)
  {
    match op
    case Join(device, name, approval) =>
      Record(MemberId(device), room, device, name, if approval then Pending else Admitted, known + 1)
    case Approve(member) => rows[member].(status := Admitted, version := known + 1)
    case Remove(member) => rows[member].(status := Removed, version := known + 1)
  }

  predicate InStage(w: World, h: nat, stage: Stage) {
    h < |w.handlers| && w.handlers[h].stage == stage
  }

  function Max(a: int, b: int): int {
    if a < b then b else a
  }

  /** The row is saved, whatever it held meanwhile; from now on the record is known to others. */
  function AfterSaveRow(w: World, h: nat): World
    requires h < |w.handlers| && w.creator in w.nodes
  {
    var c, r := w.nodes[w.creator], w.handlers[h].record;
    w.(issued := w.issued + {r}, top := Max(w.top, r.version),
       nodes := w.nodes[w.creator := Saved(c, r)],
       handlers := w.handlers[h := Handler(r, RowSaved)])
  }

  function Stored(n: Node, version: int): Node {
    n.(version := version, past := n.past + {version})
  }

  /** SaveMember at a node. */
  function Saved(n: Node, m: Record): Node {
    n.(rows := SaveMember(n.rows, m), seen := n.seen + {m})
  }

  /** The rows a joining node sets out to save: those of the answer that verify. */
  function Writes(issued: set<Record>, room: string, node: string, records: seq<Record>): seq<Write> {
    if records == [] then []
    else
      (if Counts(issued, room, records[0]) then [Write(node, records[0])] else [])
      + Writes(issued, room, node, records[1..])
  }

  /** The rows, in whatever order and however often. */
  predicate Lists(roster: seq<Record>, rows: Rows) {
    (set r | r in roster) == Values(rows)
  }

  /** One step; a step that is not enabled, or that the creator refuses, changes nothing. */
  function Apply(w: World, step: Step): (w2: World)
    requires w.creator in w.nodes
    ensures w2.creator == w.creator && w2.creator in w2.nodes && w2.room == w.room && w.issued <= w2.issued
  {
    var c := w.nodes[w.creator];
    match step
    case Begin(op, known) =>
      if known !in c.past || !Allowed(c.rows, op) then w
      else w.(handlers := w.handlers + [Handler(Draft(w.room, c.rows, op, known), Signed)])
    case SaveRow(h) => if InStage(w, h, Signed) then AfterSaveRow(w, h) else w
    case SaveRoom(h) =>
      if !InStage(w, h, RowSaved) then w else
      var r := w.handlers[h].record;
      w.(nodes := w.nodes[w.creator := Stored(c, r.version)], handlers := w.handlers[h := Handler(r, Finished)])
    case Rewrite(known) =>
      if known !in c.past then w else w.(nodes := w.nodes[w.creator := Stored(c, known)])
    case Reply(node, own, roster) =>
      if own !in w.issued || own.status != Admitted || !Lists(roster, c.rows) then w
      else w.(answers := w.answers + [Answer(node, own.version, [own] + roster, false)])
    case Enter(a) =>
      if a >= |w.answers| || w.answers[a].used || w.answers[a].node in w.nodes then w else
      var answer := w.answers[a];
      w.(nodes := w.nodes[answer.node := Node(map[], answer.version, {answer.version}, {}, {})],
         writes := w.writes + multiset(Writes(w.issued, w.room, answer.node, answer.records)),
         answers := w.answers[a := answer.(used := true)])
    case Leave(node) =>
      if node == w.creator then w else w.(nodes := w.nodes - {node})
    case Test(node, update) =>
      if node !in w.nodes || !Counts(w.issued, w.room, update) || !Newer(w.nodes[node].rows, update) then w
      else w.(writes := w.writes + multiset{Write(node, update)})
    case SaveUpdate(x) =>
      if x !in w.writes || x.node !in w.nodes then w
      else w.(nodes := w.nodes[x.node := Saved(w.nodes[x.node], x.record)], writes := w.writes - multiset{x})
    case Mark(node) =>
      if node !in w.nodes then w else
      var n := w.nodes[node];
      w.(nodes := w.nodes[node := n.(marks := n.marks + {Watermark(n.rows)})])
    case StoreMark(node, mark, known) =>
      if node !in w.nodes || known !in w.nodes[node].past || mark !in w.nodes[node].marks || mark <= known then w
      else w.(nodes := w.nodes[node := Stored(w.nodes[node], mark)])
  }

  function Exec(w: World, steps: seq<Step>): (w2: World)
    requires w.creator in w.nodes
    ensures w2.creator == w.creator && w2.creator in w2.nodes && w2.room == w.room && w.issued <= w2.issued
    decreases |steps|
  {
    if steps == [] then w else Exec(Apply(w, steps[0]), steps[1..])
  }

  // ----- what every run keeps -----

  ghost predicate VersionsDistinct(issued: set<Record>) {
    forall r, s :: r in issued && s in issued && r.version == s.version ==> r == s
  }

  ghost predicate Used(issued: set<Record>, v: int) {
    exists r :: r in issued && r.version == v
  }

  /** Versions run from one to `top` without a gap. */
  ghost predicate VersionsUpTo(issued: set<Record>, top: int) {
    && top >= 1
    && (forall r :: r in issued ==> 1 <= r.version <= top)
    && (forall v :: 1 <= v <= top ==> Used(issued, v))
  }

  /** Nothing the creator holds, stores or is about to sign runs ahead of what was issued. */
  ghost predicate CreatorBounded(c: Node, top: int) {
    && c.version in c.past
    && (forall v :: v in c.past ==> 1 <= v <= top) && (forall v :: v in c.marks ==> 0 <= v <= top)
    && (forall m :: m in c.rows ==> c.rows[m].version <= top)
  }

  ghost predicate HandlersBounded(handlers: seq<Handler>, top: int) {
    forall h :: 0 <= h < |handlers| ==>
      && 2 <= handlers[h].record.version <= top + 1
      && (handlers[h].stage != Signed ==> handlers[h].record.version <= top)
  }

  ghost predicate WritesIssued(writes: multiset<Write>, issued: set<Record>) {
    forall x :: x in writes ==> x.record in issued
  }

  ghost predicate Base(w: World) {
    && w.creator in w.nodes && WritesIssued(w.writes, w.issued)
    && VersionsUpTo(w.issued, w.top) && CreatorBounded(w.nodes[w.creator], w.top) && HandlersBounded(w.handlers, w.top)
  }

  lemma HostBase(room: string, creator: string, device: string, name: string)
    requires CanHost(room, device, name)
    ensures Base(Host(room, creator, device, name))
  {
  }

  lemma {:induction false} WritesAre(issued: set<Record>, room: string, node: string, records: seq<Record>)
    ensures forall x :: x in Writes(issued, room, node, records) ==> x.node == node && x.record in records && Counts(issued, room, x.record)
    decreases |records|
  {
    hide Counts;
    if records != [] {
      WritesAre(issued, room, node, records[1..]);
      assert records == [records[0]] + records[1..];
    }
  }

  lemma WatermarkBounded(rows: Rows, top: int)
    requires top >= 0 && forall m :: m in rows ==> rows[m].version <= top
    ensures 0 <= Watermark(rows) <= top
  {
    FirstGapIs(Versions(rows), 1);
    assert forall v :: 1 <= v < FirstGap(Versions(rows), 1) ==> v in Versions(rows);
    assert top + 1 !in Versions(rows);
  }

  lemma SaveVersions(issued: set<Record>, m: Record, top: int)
    requires VersionsUpTo(issued, top) && 1 <= m.version <= top + 1
    ensures VersionsUpTo(issued + {m}, Max(top, m.version))
  {
    forall v | 1 <= v <= Max(top, m.version) ensures Used(issued + {m}, v) {
      if v <= top {
        assert Used(issued, v);
        var r :| r in issued && r.version == v;
        assert r in issued + {m};
      } else {
        assert m in issued + {m};
      }
    }
  }

  lemma SaveRowBase(w: World, h: nat)
    requires Base(w) && InStage(w, h, Signed)
    ensures Base(AfterSaveRow(w, h))
  {
    hide VersionsUpTo;
    SaveVersions(w.issued, w.handlers[h].record, w.top);
  }

  lemma EnterBase(w: World, a: nat)
    requires Base(w) && a < |w.answers|
    ensures WritesIssued(w.writes + multiset(Writes(w.issued, w.room, w.answers[a].node, w.answers[a].records)), w.issued)
  {
    WritesAre(w.issued, w.room, w.answers[a].node, w.answers[a].records);
  }

  lemma SaveUpdateBase(w: World, x: Write)
    requires Base(w)
    ensures Base(Apply(w, SaveUpdate(x)))
  {
    assert x in w.writes ==> x.record in w.issued;
  }

  lemma MarkBase(w: World, node: string)
    requires Base(w)
    ensures Base(Apply(w, Mark(node)))
  {
    if node == w.creator { WatermarkBounded(w.nodes[node].rows, w.top); }
  }

  lemma ApplyBase(w: World, step: Step)
    requires Base(w)
    ensures Base(Apply(w, step))
  {
    hide VersionsUpTo, AfterSaveRow, Writes, Saved, Watermark, Lists, Newer, SaveMember;
    match step
    case SaveRow(h) => if InStage(w, h, Signed) { SaveRowBase(w, h); }
    case Enter(a) => if a < |w.answers| { EnterBase(w, a); }
    case SaveUpdate(x) => SaveUpdateBase(w, x);
    case Mark(node) => MarkBase(w, node);
    case Test(node, update) =>
    case _ =>
  }

  // ----- when versions are distinct -----

  /** The step issues a new record under a version already issued. */
  predicate Reuses(w: World, step: Step) {
    step.SaveRow? && InStage(w, step.h, Signed) &&
    var r := w.handlers[step.h].record;
    r.version <= w.top && r !in w.issued
  }

  predicate NeverReuses(w: World, steps: seq<Step>)
    requires w.creator in w.nodes
    decreases |steps|
  {
    steps == [] || (!Reuses(w, steps[0]) && NeverReuses(Apply(w, steps[0]), steps[1..]))
  }

  /** One step keeps issued versions distinct exactly when it does not issue from an outdated room version. */
  lemma StepDistinctExactly(w: World, step: Step)
    requires Base(w) && VersionsDistinct(w.issued)
    ensures VersionsDistinct(Apply(w, step).issued) <==> !Reuses(w, step)
  {
    hide Writes, Watermark, SaveMember, CreatorBounded;
    if step.SaveRow? && InStage(w, step.h, Signed) {
      var r := w.handlers[step.h].record;
      assert Apply(w, step).issued == w.issued + {r};
      if r.version <= w.top {
        assert Used(w.issued, r.version);
        var s :| s in w.issued && s.version == r.version;
        assert s in w.issued + {r} && r in w.issued + {r};
      }
    }
  }

  lemma {:induction false} RunDistinctExactly(w: World, steps: seq<Step>)
    requires Base(w) && VersionsDistinct(w.issued)
    ensures VersionsDistinct(Exec(w, steps).issued) <==> NeverReuses(w, steps)
    decreases |steps|
  {
    hide Base, VersionsDistinct, Reuses, Apply;
    CreatorPresent(w);
    if steps != [] {
      var w2 := Apply(w, steps[0]);
      StepDistinctExactly(w, steps[0]);
      ApplyBase(w, steps[0]);
      if VersionsDistinct(w2.issued) {
        RunDistinctExactly(w2, steps[1..]);
      } else if VersionsDistinct(Exec(w2, steps[1..]).issued) {
        FewerDistinct(w2.issued, Exec(w2, steps[1..]).issued);
      }
    }
  }

  lemma CreatorPresent(w: World)
    requires Base(w)
    ensures w.creator in w.nodes
  {
  }

  lemma FewerDistinct(a: set<Record>, b: set<Record>)
    requires a <= b && VersionsDistinct(b)
    ensures VersionsDistinct(a)
  {
  }

  /**
   Over every run from hosting a room, whatever overlaps: issued versions are
   distinct exactly when no row was saved with a version at or below one already
   issued, other than the very record issued before.
   */
  lemma VersionsDistinctExactly(room: string, creator: string, device: string, name: string, steps: seq<Step>)
    requires CanHost(room, device, name)
    ensures var w := Host(room, creator, device, name);
      VersionsDistinct(Exec(w, steps).issued) <==> NeverReuses(w, steps)
  {
    HostBase(room, creator, device, name);
    RunDistinctExactly(Host(room, creator, device, name), steps);
  }

  // ----- orderly runs -----

  ghost predicate OneDevice(issued: set<Record>) {
    forall r, s :: r in issued && s in issued && r.member == s.member ==> r.device == s.device && r.room == s.room
  }

  /** After a member's removal every later record of that member is a removal too. */
  ghost predicate RemovalFinal(issued: set<Record>) {
    forall r, s :: r in issued && s in issued && r.member == s.member && r.status == Removed && r.version < s.version ==>
      s.status == Removed
  }

  /** Every row of every node is a record the creator issued, as is all it ever saved. */
  ghost predicate NodesFrom(nodes: map<string, Node>, issued: set<Record>) {
    forall n :: n in nodes ==> RowsFrom(nodes[n].rows, issued) && nodes[n].seen <= issued
  }

  /** No sync has anything to save at the creator. */
  ghost predicate CreatorQuiet(writes: multiset<Write>, creator: string) {
    forall x :: x in writes ==> x.node != creator
  }

  predicate Complete(room: string, m: Record) {
    m.room == room && m.member != "" && m.room != "" && m.device != "" && m.name != ""
  }

  ghost predicate AllComplete(room: string, issued: set<Record>) {
    forall r :: r in issued ==> Complete(room, r)
  }

  /** What the creator may sign for a member it already holds. */
  ghost predicate Follows(rows: Rows, m: Record) {
    m.member in rows ==>
      && m.device == rows[m.member].device && m.room == rows[m.member].room
      && (rows[m.member].status == Removed ==> m.status == Removed)
  }

  /** A draft under the next version was made from the rows as they are. */
  ghost predicate DraftsFollow(handlers: seq<Handler>, room: string, rows: Rows, top: int) {
    forall h :: 0 <= h < |handlers| && handlers[h].stage == Signed ==>
      && Complete(room, handlers[h].record)
      && (handlers[h].record.version == top + 1 ==> Follows(rows, handlers[h].record))
  }

  /** Distinct versions, and the creator holding the newest record of every member. */
  ghost predicate Sound(w: World)
    requires w.creator in w.nodes
  {
    VersionsDistinct(w.issued) && IsJoin(w.nodes[w.creator].rows, w.issued)
  }

  ghost predicate Inv(w: World) {
    && Base(w) && Sound(w)
    && OneDevice(w.issued) && RemovalFinal(w.issued) && AllComplete(w.room, w.issued)
    && NodesFrom(w.nodes, w.issued) && CreatorQuiet(w.writes, w.creator)
    && DraftsFollow(w.handlers, w.room, w.nodes[w.creator].rows, w.top)
  }

  lemma HostInv(room: string, creator: string, device: string, name: string)
    requires CanHost(room, device, name)
    ensures Inv(Host(room, creator, device, name))
  {
    HostBase(room, creator, device, name);
  }

  /** The handler's row is the next version, or is saved a second time while it is still held. */
  predicate Current(w: World, h: nat)
    requires h < |w.handlers| && w.creator in w.nodes
  {
    var c, r := w.nodes[w.creator], w.handlers[h].record;
    r.version == w.top + 1 || (r.member in c.rows && c.rows[r.member] == r)
  }

  /** No handler of the run saves a row over something issued since it looked. */
  predicate Orderly(w: World, steps: seq<Step>)
    requires w.creator in w.nodes
    decreases |steps|
  {
    steps == [] ||
    ((steps[0].SaveRow? && InStage(w, steps[0].h, Signed) ==> Current(w, steps[0].h))
     && Orderly(Apply(w, steps[0]), steps[1..]))
  }

  lemma FollowsAll(issued: set<Record>, rows: Rows, m: Record, r: Record)
    requires VersionsDistinct(issued) && RemovalFinal(issued) && OneDevice(issued) && IsJoin(rows, issued)
    requires Follows(rows, m) && r in issued && r.member == m.member
    ensures r.device == m.device && r.room == m.room && (r.status == Removed ==> m.status == Removed)
  {
  }

  /** A fresh record for a member extends the issued set without disturbing what it promises. */
  lemma IssueRecords(issued: set<Record>, rows: Rows, m: Record, top: int)
    requires VersionsDistinct(issued) && OneDevice(issued) && RemovalFinal(issued) && VersionsUpTo(issued, top)
    requires IsJoin(rows, issued) && m.version == top + 1 && Follows(rows, m)
    ensures VersionsDistinct(issued + {m}) && OneDevice(issued + {m}) && RemovalFinal(issued + {m})
  {
    hide IsJoin, Follows;
    forall r | r in issued && r.member == m.member
      ensures r.device == m.device && r.room == m.room && (r.status == Removed ==> m.status == Removed)
    {
      FollowsAll(issued, rows, m, r);
    }
  }

  lemma IssueJoins(rows: Rows, issued: set<Record>, m: Record, top: int)
    requires IsJoin(rows, issued) && VersionsUpTo(issued, top) && m.version == top + 1 && Follows(rows, m)
    ensures SaveMember(rows, m) == rows[m.member := m] && IsJoin(SaveMember(rows, m), issued + {m})
  {
  }

  lemma IssueNodes(nodes: map<string, Node>, issued: set<Record>, creator: string, m: Record)
    requires creator in nodes && NodesFrom(nodes, issued)
    requires SaveMember(nodes[creator].rows, m) == nodes[creator].rows[m.member := m]
    ensures NodesFrom(nodes[creator := Saved(nodes[creator], m)], issued + {m})
  {
  }

  /** With a new highest version no draft is current any more. */
  lemma DraftsOutdated(handlers: seq<Handler>, h: nat, room: string, rows: Rows, rows2: Rows, top: int)
    requires HandlersBounded(handlers, top) && DraftsFollow(handlers, room, rows, top) && h < |handlers|
    ensures DraftsFollow(handlers[h := Handler(handlers[h].record, RowSaved)], room, rows2, top + 1)
  {
  }

  lemma FreshRowKeeps(w: World, h: nat)
    requires Inv(w) && InStage(w, h, Signed) && w.handlers[h].record.version == w.top + 1
    ensures Inv(AfterSaveRow(w, h))
  {
    hide VersionsDistinct, OneDevice, RemovalFinal, VersionsUpTo, IsJoin, NodesFrom, Follows, HandlersBounded, CreatorBounded;
    var c, r := w.nodes[w.creator], w.handlers[h].record;
    SaveRowBase(w, h);
    IssueRecords(w.issued, c.rows, r, w.top);
    IssueJoins(c.rows, w.issued, r, w.top);
    IssueNodes(w.nodes, w.issued, w.creator, r);
    DraftsOutdated(w.handlers, h, w.room, c.rows, SaveMember(c.rows, r), w.top);
  }

  lemma RepeatedRowKeeps(w: World, h: nat)
    requires Inv(w) && InStage(w, h, Signed)
    requires var rows, r := w.nodes[w.creator].rows, w.handlers[h].record; r.member in rows && rows[r.member] == r
    ensures Inv(AfterSaveRow(w, h))
    ensures AfterSaveRow(w, h).nodes[w.creator].rows == w.nodes[w.creator].rows && AfterSaveRow(w, h).issued == w.issued
  {
    hide VersionsDistinct, OneDevice, RemovalFinal, VersionsUpTo, NodesFrom, Follows;
    var c, r := w.nodes[w.creator], w.handlers[h].record;
    SaveRowBase(w, h);
    assert r in w.issued && w.issued + {r} == w.issued;
    assert SaveMember(c.rows, r) == c.rows;
    assert c.rows[r.member := r] == c.rows;
    IssueNodes(w.nodes, w.issued, w.creator, r);
    assert Max(w.top, r.version) == w.top;
  }

  /**
   Saving a row keeps versions distinct and the creator's rows newest exactly when
   the handler is current: nothing was issued since it read the room version, or it
   only repeats the row held.
   */
  lemma SaveRowExactly(w: World, h: nat)
    requires Inv(w) && InStage(w, h, Signed)
    ensures Sound(AfterSaveRow(w, h)) <==> Current(w, h)
    ensures Current(w, h) ==> Inv(AfterSaveRow(w, h))
  {
    hide OneDevice, RemovalFinal, NodesFrom, Follows;
    var c, r := w.nodes[w.creator], w.handlers[h].record;
    if r.version == w.top + 1 {
      FreshRowKeeps(w, h);
    } else if r.member in c.rows && c.rows[r.member] == r {
      RepeatedRowKeeps(w, h);
    } else {
      OutdatedRowBreaks(w, h);
    }
  }

  lemma OutdatedRowBreaks(w: World, h: nat)
    requires Inv(w) && InStage(w, h, Signed) && !Current(w, h)
    ensures !Sound(AfterSaveRow(w, h))
  {
    hide OneDevice, RemovalFinal, NodesFrom, Follows, CreatorBounded;
    var c, r := w.nodes[w.creator], w.handlers[h].record;
    var w2 := AfterSaveRow(w, h);
    if r in w.issued {
      var held := c.rows[r.member];
      assert held in w.issued && held.version > r.version;
      assert held in w2.issued && w2.nodes[w.creator].rows[r.member].version == r.version;
    } else {
      assert Used(w.issued, r.version);
      var s :| s in w.issued && s.version == r.version;
      assert s in w2.issued && r in w2.issued;
    }
  }

  /** Saving an issued record replaces the row as a whole, so rows stay issued records. */
  lemma SaveIssued(n: Node, issued: set<Record>, u: Record)
    requires OneDevice(issued) && RowsFrom(n.rows, issued) && n.seen <= issued && u in issued
    ensures SaveMember(n.rows, u) == n.rows[u.member := u]
    ensures RowsFrom(Saved(n, u).rows, issued) && Saved(n, u).seen <= issued
  {
  }

  lemma SaveUpdateKeeps(w: World, x: Write)
    requires Inv(w)
    ensures Inv(Apply(w, SaveUpdate(x)))
  {
    hide VersionsDistinct, OneDevice, RemovalFinal, VersionsUpTo, DraftsFollow, CreatorBounded, HandlersBounded, IsJoin, RowsFrom, Saved;
    SaveUpdateBase(w, x);
    if x in w.writes && x.node in w.nodes { SaveIssued(w.nodes[x.node], w.issued, x.record); }
  }

  /** The creator's rows are the newest, so no update passes the test there. */
  lemma TestKeeps(w: World, node: string, update: Record)
    requires Inv(w)
    ensures Inv(Apply(w, Test(node, update)))
  {
    hide VersionsDistinct, OneDevice, RemovalFinal, VersionsUpTo, DraftsFollow, CreatorBounded, HandlersBounded, NodesFrom;
    ApplyBase(w, Test(node, update));
  }

  lemma EnterKeeps(w: World, a: nat)
    requires Inv(w)
    ensures Inv(Apply(w, Enter(a)))
  {
    hide VersionsDistinct, OneDevice, RemovalFinal, VersionsUpTo, DraftsFollow, CreatorBounded, HandlersBounded, IsJoin, Writes;
    ApplyBase(w, Enter(a));
    if a < |w.answers| { WritesAre(w.issued, w.room, w.answers[a].node, w.answers[a].records); }
  }

  lemma DraftFollows(w: World, op: Op, known: int)
    requires Inv(w) && Allowed(w.nodes[w.creator].rows, op)
    ensures var r := Draft(w.room, w.nodes[w.creator].rows, op, known);
      Complete(w.room, r) && Follows(w.nodes[w.creator].rows, r)
  {
    var rows := w.nodes[w.creator].rows;
    if !op.Join? { assert rows[op.member] in w.issued && rows[op.member].member == op.member; }
    if op.Join? { assert w.nodes[w.creator].version in w.nodes[w.creator].past; RoomNamed(w); }
  }

  lemma RoomNamed(w: World)
    requires Inv(w)
    ensures w.room != ""
  {
    assert Used(w.issued, 1);
  }

  lemma BeginKeeps(w: World, op: Op, known: int)
    requires Inv(w)
    ensures Inv(Apply(w, Begin(op, known)))
  {
    hide VersionsDistinct, OneDevice, RemovalFinal, VersionsUpTo, IsJoin, NodesFrom, Follows, Complete, Draft, Allowed;
    ApplyBase(w, Begin(op, known));
    if known in w.nodes[w.creator].past && Allowed(w.nodes[w.creator].rows, op) { DraftFollows(w, op, known); }
  }

  lemma ApplyKeeps(w: World, step: Step)
    requires Inv(w)
    requires step.SaveRow? && InStage(w, step.h, Signed) ==> Current(w, step.h)
    ensures Inv(Apply(w, step))
  {
    hide VersionsDistinct, OneDevice, RemovalFinal, VersionsUpTo, IsJoin, AfterSaveRow, Base, Follows, Complete, RowsFrom, Writes, Saved;
    CreatorPresent(w);
    ApplyBase(w, step);
    match step
    case Begin(op, known) => BeginKeeps(w, op, known);
    case SaveRow(h) => if InStage(w, h, Signed) { SaveRowExactly(w, h); }
    case Enter(a) => EnterKeeps(w, a);
    case Test(node, update) => TestKeeps(w, node, update);
    case SaveUpdate(x) => SaveUpdateKeeps(w, x);
    case _ =>
  }

  lemma {:induction false} ExecKeeps(w: World, steps: seq<Step>)
    requires Inv(w) && Orderly(w, steps)
    ensures Inv(Exec(w, steps))
    decreases |steps|
  {
    hide Inv, Current, Apply;
    InvBase(w);
    if steps != [] {
      ApplyKeeps(w, steps[0]);
      ExecKeeps(Apply(w, steps[0]), steps[1..]);
    }
  }

  lemma InvBase(w: World)
    requires Inv(w)
    ensures Base(w) && w.creator in w.nodes
  {
  }

  /** Over every orderly run, issued versions are distinct, one member's records share one device key, and nothing follows a removal. */
  lemma IssuedRecordsSound(room: string, creator: string, device: string, name: string, steps: seq<Step>)
    requires CanHost(room, device, name) && Orderly(Host(room, creator, device, name), steps)
    ensures var w := Exec(Host(room, creator, device, name), steps);
      VersionsDistinct(w.issued) && OneDevice(w.issued) && RemovalFinal(w.issued)
  {
    hide VersionsDistinct, OneDevice, RemovalFinal, Base, IsJoin, NodesFrom;
    HostInv(room, creator, device, name);
    ExecKeeps(Host(room, creator, device, name), steps);
  }

  // ----- nodes hold the newest of what they saved -----

  /** The row held is not above the one about to be saved. */
  predicate Forward(w: World, x: Write) {
    x.node in w.nodes && x.record.member in w.nodes[x.node].rows ==>
      w.nodes[x.node].rows[x.record.member].version <= x.record.version
  }

  /** If the step saves a row decided on earlier at node `n`, nothing above it is held by now. */
  predicate ForwardAt(w: World, step: Step, n: string) {
    step.SaveUpdate? && step.write.node == n && step.write in w.writes ==> Forward(w, step.write)
  }

  /** Every such step of the run, a version test at the write would have let pass. */
  predicate AllForward(w: World, steps: seq<Step>, n: string)
    requires w.creator in w.nodes
    decreases |steps|
  {
    steps == [] || (ForwardAt(w, steps[0], n) && AllForward(Apply(w, steps[0]), steps[1..], n))
  }

  /** Node `n`, if in the room, holds the newest of the records of each member it saved. */
  ghost predicate HoldsNewest(w: World, n: string) {
    n in w.nodes ==> IsJoin(w.nodes[n].rows, w.nodes[n].seen)
  }

  lemma IssuedCoherent(issued: set<Record>)
    requires VersionsDistinct(issued) && OneDevice(issued)
    ensures Coherent(issued)
  {
  }

  /** One write leaves a node with the newest of what it saved exactly when nothing above it was held. */
  lemma SaveUpdateExactly(w: World, x: Write)
    requires Inv(w) && x in w.writes && x.node in w.nodes && HoldsNewest(w, x.node)
    ensures HoldsNewest(Apply(w, SaveUpdate(x)), x.node) <==> Forward(w, x)
  {
    hide VersionsUpTo, RemovalFinal, CreatorBounded, HandlersBounded, DraftsFollow, AllComplete;
    var n := w.nodes[x.node];
    SaveIssued(n, w.issued, x.record);
    IssuedCoherent(w.issued);
    assert Apply(w, SaveUpdate(x)).nodes[x.node] == Saved(n, x.record);
    SavedNewest(n, w.issued, x.record);
  }

  lemma SavedNewest(n: Node, issued: set<Record>, u: Record)
    requires Coherent(issued) && n.seen <= issued && u in issued && IsJoin(n.rows, n.seen)
    requires SaveMember(n.rows, u) == n.rows[u.member := u]
    ensures IsJoin(Saved(n, u).rows, Saved(n, u).seen) <==> (u.member in n.rows ==> n.rows[u.member].version <= u.version)
  {
    if u.member in n.rows && n.rows[u.member].version > u.version {
      assert n.rows[u.member] in Saved(n, u).seen;
    }
  }

  lemma StepNewest(w: World, step: Step, n: string)
    requires Inv(w) && HoldsNewest(w, n) && ForwardAt(w, step, n)
    requires step.SaveRow? && InStage(w, step.h, Signed) ==> Current(w, step.h)
    ensures HoldsNewest(Apply(w, step), n)
  {
    hide Inv, Apply, IsJoin, AfterSaveRow, Saved;
    InvBase(w);
    EmptyNewest();
    if n !in w.nodes {
      NodesStartEmpty(w, step, n);
    } else if SavesAt(w, step, n) {
      RowSavedAt(w, step, n);
      if step.SaveRow? { SaveRowNewest(w, step.h); } else { SaveUpdateExactly(w, step.write); }
    } else if step == Leave(n) && n != w.creator {
      LeavesRoom(w, n);
    } else {
      RowsKept(w, step, n);
    }
  }

  lemma LeavesRoom(w: World, n: string)
    requires w.creator in w.nodes && n != w.creator
    ensures n !in Apply(w, Leave(n)).nodes
  {
  }

  /** The step saves a row at node `n`. */
  predicate SavesAt(w: World, step: Step, n: string) {
    || (step.SaveRow? && InStage(w, step.h, Signed) && n == w.creator)
    || (step.SaveUpdate? && step.write.node == n && step.write in w.writes)
  }

  /** A step of a handler. */
  predicate Handles(step: Step) {
    step.Begin? || step.SaveRow? || step.SaveRoom? || step.Rewrite? || step.Reply?
  }

  lemma EnterKeepsRows(w: World, a: nat, n: string)
    requires w.creator in w.nodes && n in w.nodes
    ensures n in Apply(w, Enter(a)).nodes && Apply(w, Enter(a)).nodes[n] == w.nodes[n]
  {
    hide Writes;
  }

  lemma TestKeepsNodes(w: World, node: string, update: Record)
    requires w.creator in w.nodes
    ensures Apply(w, Test(node, update)).nodes == w.nodes
  {
    hide Newer, Counts;
  }

  lemma SaveUpdateKeepsRows(w: World, x: Write, n: string)
    requires w.creator in w.nodes && n in w.nodes && !(x.node == n && x in w.writes)
    ensures n in Apply(w, SaveUpdate(x)).nodes && Apply(w, SaveUpdate(x)).nodes[n] == w.nodes[n]
  {
    hide Saved;
  }

  lemma LeaveKeepsRows(w: World, node: string, n: string)
    requires w.creator in w.nodes && n in w.nodes && (node == n ==> n == w.creator)
    ensures n in Apply(w, Leave(node)).nodes && Apply(w, Leave(node)).nodes[n] == w.nodes[n]
  {
  }

  lemma HandlersKeepRows(w: World, step: Step, n: string)
    requires w.creator in w.nodes && n in w.nodes && !SavesAt(w, step, n) && Handles(step)
    ensures var w2 := Apply(w, step);
      n in w2.nodes && w2.nodes[n].rows == w.nodes[n].rows && w2.nodes[n].seen == w.nodes[n].seen
  {
    hide Writes, Watermark, Saved;
  }

  lemma NodesKeepRows(w: World, step: Step, n: string)
    requires w.creator in w.nodes && n in w.nodes && !SavesAt(w, step, n) && (step.Mark? || step.StoreMark?)
    ensures var w2 := Apply(w, step);
      n in w2.nodes && w2.nodes[n].rows == w.nodes[n].rows && w2.nodes[n].seen == w.nodes[n].seen
  {
    hide Writes, Watermark, Saved;
  }

  lemma RowsKept(w: World, step: Step, n: string)
    requires w.creator in w.nodes && n in w.nodes && !SavesAt(w, step, n) && (step == Leave(n) ==> n == w.creator)
    ensures var w2 := Apply(w, step);
      n in w2.nodes && w2.nodes[n].rows == w.nodes[n].rows && w2.nodes[n].seen == w.nodes[n].seen
  {
    hide Apply;
    match step
    case Enter(a) => EnterKeepsRows(w, a, n);
    case Leave(node) => LeaveKeepsRows(w, node, n);
    case Test(node, update) => TestKeepsNodes(w, node, update);
    case SaveUpdate(x) => SaveUpdateKeepsRows(w, x, n);
    case _ => if Handles(step) { HandlersKeepRows(w, step, n); } else { NodesKeepRows(w, step, n); }
  }

  lemma RowSavedAt(w: World, step: Step, n: string)
    requires w.creator in w.nodes && n in w.nodes && SavesAt(w, step, n)
    ensures step.SaveRow? ==> Apply(w, step) == AfterSaveRow(w, step.h)
    ensures step.SaveUpdate? ==> n in Apply(w, step).nodes && Apply(w, step).nodes[n] == Saved(w.nodes[n], step.write.record)
  {
    hide Writes, Watermark, Saved;
  }

  lemma NodesStartEmpty(w: World, step: Step, n: string)
    requires w.creator in w.nodes && n !in w.nodes
    ensures n in Apply(w, step).nodes ==> Apply(w, step).nodes[n].rows == map[] && Apply(w, step).nodes[n].seen == {}
  {
    hide Writes, Watermark, Saved;
  }

  lemma EmptyNewest()
    ensures IsJoin(map[], {})
  {
  }

  lemma SaveRowNewest(w: World, h: nat)
    requires Inv(w) && InStage(w, h, Signed) && Current(w, h) && HoldsNewest(w, w.creator)
    ensures HoldsNewest(AfterSaveRow(w, h), w.creator)
  {
    hide VersionsDistinct, OneDevice, RemovalFinal, VersionsUpTo, AllComplete, IsJoin, Follows, SaveMember, HandlersBounded;
    var c, r := w.nodes[w.creator], w.handlers[h].record;
    assert c.seen <= w.issued;
    if r.version == w.top + 1 {
      IssueRecords(w.issued, c.rows, r, w.top);
      IssueJoins(c.rows, w.issued, r, w.top);
      IssuedCoherent(w.issued + {r});
      SavedNewest(c, w.issued + {r}, r);
    } else {
      RowIssued(w, r.member);
      SameRowSaved(c.rows, r);
      IssuedCoherent(w.issued);
      SavedNewest(c, w.issued, r);
    }
  }

  lemma RowIssued(w: World, m: string)
    requires Inv(w) && m in w.nodes[w.creator].rows
    ensures w.nodes[w.creator].rows[m] in w.issued
  {
  }

  lemma SameRowSaved(rows: Rows, r: Record)
    requires r.member in rows && rows[r.member] == r
    ensures SaveMember(rows, r) == rows[r.member := r]
  {
  }

  /** Over every orderly run whose writes at a node are forward, the node holds the newest of what it saved. */
  lemma {:induction false} NodeHoldsNewest(w: World, steps: seq<Step>, n: string)
    requires Inv(w) && Orderly(w, steps) && AllForward(w, steps, n) && HoldsNewest(w, n)
    ensures HoldsNewest(Exec(w, steps), n)
    decreases |steps|
  {
    hide Inv, Current, Apply, ForwardAt, HoldsNewest;
    InvBase(w);
    if steps != [] {
      StepNewest(w, steps[0], n);
      ApplyKeeps(w, steps[0]);
      NodeHoldsNewest(Apply(w, steps[0]), steps[1..], n);
    }
  }

  // ----- removal is final -----

  /** A removal of `m` has been issued, and node `n` holds a record at least that recent. */
  ghost predicate Gone(w: World, n: string, m: string, r: Record) {
    && r in w.issued && r.member == m && r.status == Removed
    && n in w.nodes && m in w.nodes[n].rows && r.version <= w.nodes[n].rows[m].version
  }

  lemma GoneMeansRemoved(w: World, n: string, m: string, r: Record)
    requires Inv(w) && Gone(w, n, m, r)
    ensures w.nodes[n].rows[m].status == Removed
  {
    assert RowsFrom(w.nodes[n].rows, w.issued);
  }

  lemma CreatorHolds(w: World, r: Record)
    requires Inv(w) && r in w.issued
    ensures r.member in w.nodes[w.creator].rows && r.version <= w.nodes[w.creator].rows[r.member].version <= w.top
  {
  }

  lemma StepStaysGone(w: World, step: Step, n: string, m: string, r: Record)
    requires Inv(w) && Gone(w, n, m, r) && step != Leave(n) && ForwardAt(w, step, n)
    requires step.SaveRow? && InStage(w, step.h, Signed) ==> Current(w, step.h)
    ensures Gone(Apply(w, step), n, m, r)
  {
    hide Inv, Apply, AfterSaveRow, Saved;
    InvBase(w);
    if SavesAt(w, step, n) {
      RowSavedAt(w, step, n);
      if step.SaveRow? { SaveRowStaysGone(w, step.h, n, m, r); } else { SavedVersion(w.nodes[n], step.write.record); }
    } else {
      RowsKept(w, step, n);
    }
  }

  lemma SavedVersion(n: Node, u: Record)
    ensures u.member in Saved(n, u).rows && Saved(n, u).rows[u.member].version == u.version
    ensures forall k :: k in n.rows && k != u.member ==> k in Saved(n, u).rows && Saved(n, u).rows[k] == n.rows[k]
  {
  }

  lemma SaveRowStaysGone(w: World, h: nat, n: string, m: string, r: Record)
    requires Inv(w) && Gone(w, n, m, r) && InStage(w, h, Signed) && Current(w, h)
    ensures Gone(AfterSaveRow(w, h), n, m, r)
  {
    hide Inv, Saved, SaveMember;
    InvBase(w);
    CreatorHolds(w, r);
    SavedVersion(w.nodes[w.creator], w.handlers[h].record);
  }

  predicate Stays(steps: seq<Step>, n: string) {
    forall i :: 0 <= i < |steps| ==> steps[i] != Leave(n)
  }

  lemma {:induction false} RunStaysGone(w: World, steps: seq<Step>, n: string, m: string, r: Record)
    requires Inv(w) && Orderly(w, steps) && AllForward(w, steps, n) && (n == w.creator || Stays(steps, n)) && Gone(w, n, m, r)
    ensures Gone(Exec(w, steps), n, m, r)
    decreases |steps|
  {
    hide Inv, Current, Gone, Apply, ForwardAt;
    InvBase(w);
    if steps != [] {
      if steps[0] == Leave(n) {
        CreatorStays(w);
      } else {
        StepStaysGone(w, steps[0], n, m, r);
      }
      ApplyKeeps(w, steps[0]);
      RunStaysGone(Apply(w, steps[0]), steps[1..], n, m, r);
    }
  }

  lemma CreatorStays(w: World)
    requires w.creator in w.nodes
    ensures Apply(w, Leave(w.creator)) == w
  {
  }

  /**
   Removal is final at every node: once a node holds a member as removed, then for as
   long as it stays in the room it never again holds that member as pending or
   admitted, whatever records reach it and however its syncs overlap, over every run
   in which handlers are orderly and each write at the node is forward.
   */
  lemma RemovalIsFinal(w: World, steps: seq<Step>, n: string, m: string)
    requires Inv(w) && Orderly(w, steps) && AllForward(w, steps, n) && (n == w.creator || Stays(steps, n))
    requires n in w.nodes && m in w.nodes[n].rows && w.nodes[n].rows[m].status == Removed
    ensures var w2 := Exec(w, steps);
      n in w2.nodes && m in w2.nodes[n].rows && w2.nodes[n].rows[m].status == Removed
  {
    hide Base, Sound, DraftsFollow, AllComplete, AllForward, Orderly, Stays;
    InvBase(w);
    var r := w.nodes[n].rows[m];
    assert RowsFrom(w.nodes[n].rows, w.issued);
    RunStaysGone(w, steps, n, m, r);
    ExecKeeps(w, steps);
    GoneMeansRemoved(Exec(w, steps), n, m, r);
  }

  /** The creator's own writes need no test: an orderly run leaves its syncs nothing to save. */
  lemma CreatorWritesNothing(w: World, x: Write)
    requires Inv(w) && x in w.writes
    ensures x.node != w.creator
  {
  }

  /** What the creator answers a joining node after a removal carries that removal or a later one. */
  lemma ReplyCarriesRemoval(w: World, node: string, own: Record, roster: seq<Record>, r: Record)
    requires Inv(w) && r in w.issued && r.status == Removed
    requires Lists(roster, w.nodes[w.creator].rows)
    ensures exists s :: s in roster && s.member == r.member && s.status == Removed && s.version >= r.version
  {
    CreatorHolds(w, r);
    var s := w.nodes[w.creator].rows[r.member];
    assert s in Values(w.nodes[w.creator].rows) && s in w.issued && s.member == r.member;
  }
}
