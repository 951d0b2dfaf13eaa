/**
 What a room version written back too low costs. From a state in which handlers
 were orderly so far, and with handlers that do not overlap from now on, the module
 says exactly when a version is issued twice and exactly when a removal can be
 undone, and exhibits runs that do both.
 */
module MembershipStale {
  import opened Membership
  import opened MembershipWorld

  /** A step of a run in which every handler and sync works from the present room version. */
  datatype SerialStep =
    | Handle(op: Op)
    | Sync(node: string, updates: seq<Record>)
    | Arrive(node: string, own: Record, roster: seq<Record>)
    | Depart(node: string)

  function Handled(w: World, op: Op): (w2: World)
    requires w.creator in w.nodes
    ensures w2.creator == w.creator && w2.creator in w2.nodes && w2.room == w.room && w.issued <= w2.issued
  {
    var h := |w.handlers|;
    Apply(Apply(Apply(w, Begin(op, w.nodes[w.creator].version)), SaveRow(h)), SaveRoom(h))
  }

  /** One update of a sync: tested, and if newer saved at once. */
  function SyncedOne(w: World, node: string, u: Record): (w2: World)
    requires w.creator in w.nodes
    ensures w2.creator == w.creator && w2.creator in w2.nodes && w2.room == w.room && w.issued <= w2.issued
  {
    if node in w.nodes && Counts(w.issued, w.room, u) && Newer(w.nodes[node].rows, u)
    then Apply(Apply(w, Test(node, u)), SaveUpdate(Write(node, u))) else w
  }

  function SyncedEach(w: World, node: string, updates: seq<Record>): (w2: World)
    requires w.creator in w.nodes
    ensures w2.creator == w.creator && w2.creator in w2.nodes && w2.room == w.room && w.issued <= w2.issued
    decreases |updates|
  {
    if updates == [] then w else SyncedEach(SyncedOne(w, node, updates[0]), node, updates[1..])
  }

  /** A sync that nothing overlaps: its updates in turn, then the watermark. */
  function Synced(w: World, node: string, updates: seq<Record>): (w2: World)
    requires w.creator in w.nodes && node in w.nodes
    ensures w2.creator == w.creator && w2.creator in w2.nodes && w2.room == w.room && w.issued <= w2.issued
  {
    var w1 := SyncedEach(w, node, updates);
    if node !in w1.nodes then w1 else
    Apply(Apply(w1, Mark(node)), StoreMark(node, Watermark(w1.nodes[node].rows), w.nodes[node].version))
  }

  function SavedEach(w: World, node: string, records: seq<Record>): (w2: World)
    requires w.creator in w.nodes
    ensures w2.creator == w.creator && w2.creator in w2.nodes && w2.room == w.room && w.issued <= w2.issued
    decreases |records|
  {
    if records == [] then w else SavedEach(Apply(w, SaveUpdate(Write(node, records[0]))), node, records[1..])
  }

  predicate CanArrive(w: World, node: string, own: Record, roster: seq<Record>)
    requires w.creator in w.nodes
  {
    var rows := w.nodes[w.creator].rows;
    node !in w.nodes && own.member in rows && rows[own.member] == own && own.status == Admitted && Lists(roster, rows)
  }

  /** A node joins and saves what it was answered before anything else happens. */
  function Arrived(w: World, node: string, own: Record, roster: seq<Record>): (w2: World)
    requires w.creator in w.nodes
    ensures w2.creator == w.creator && w2.creator in w2.nodes && w2.room == w.room && w.issued <= w2.issued
  {
    if !CanArrive(w, node, own, roster) then w else
    SavedEach(Apply(Apply(w, Reply(node, own, roster)), Enter(|w.answers|)), node, [own] + roster)
  }

  function ApplySerial(w: World, step: SerialStep): (w2: World)
    requires w.creator in w.nodes
    ensures w2.creator == w.creator && w2.creator in w2.nodes && w2.room == w.room && w.issued <= w2.issued
  {
    match step
    case Handle(op) => Handled(w, op)
    case Sync(node, updates) => if node in w.nodes then Synced(w, node, updates) else w
    case Arrive(node, own, roster) => Arrived(w, node, own, roster)
    case Depart(node) => Apply(w, Leave(node))
  }

  function ExecSerial(w: World, steps: seq<SerialStep>): (w2: World)
    requires w.creator in w.nodes
    ensures w2.creator == w.creator && w2.creator in w2.nodes && w2.room == w.room && w.issued <= w2.issued
    decreases |steps|
  {
    if steps == [] then w else ExecSerial(ApplySerial(w, steps[0]), steps[1..])
  }

  /** What a handler without overlap does: it issues one record and stores its version. */
  lemma HandledIs(w: World, op: Op)
    requires w.creator in w.nodes && w.nodes[w.creator].version in w.nodes[w.creator].past
    ensures var c, w2 := w.nodes[w.creator], Handled(w, op);
      && (!Allowed(c.rows, op) ==> w2 == w)
      && (Allowed(c.rows, op) ==>
            var r := Draft(w.room, c.rows, op, c.version);
            && w2.issued == w.issued + {r} && w2.handlers == w.handlers + [Handler(r, Finished)] && w2.answers == w.answers
            && w2.nodes == w.nodes[w.creator := Stored(Saved(c, r), c.version + 1)])
  {
    hide SaveMember, Allowed, Draft, Writes;
    var c, h := w.nodes[w.creator], |w.handlers|;
    if Allowed(c.rows, op) {
      var r := Draft(w.room, c.rows, op, c.version);
      DraftVersion(w.room, c.rows, op, c.version);
      var w1 := Apply(w, Begin(op, c.version));
      assert w1.handlers[h] == Handler(r, Signed);
      var w2 := Apply(w1, SaveRow(h));
      assert w2.handlers[h] == Handler(r, RowSaved);
    }
  }

  lemma DraftVersion(room: string, rows: Rows, op: Op, known: int)
    requires Allowed(rows, op)
    ensures Draft(room, rows, op, known).version == known + 1
  {
  }

  lemma SyncedOneIs(w: World, node: string, u: Record)
    requires w.creator in w.nodes && node in w.nodes
    ensures var n := w.nodes[node];
      SyncedOne(w, node, u) == if Counts(w.issued, w.room, u) && Newer(n.rows, u) then w.(nodes := w.nodes[node := Saved(n, u)]) else w
  {
    hide Saved, Writes, Counts, Newer;
    if Counts(w.issued, w.room, u) && Newer(w.nodes[node].rows, u) {
      var w1 := Apply(w, Test(node, u));
      assert w1.writes - multiset{Write(node, u)} == w.writes;
    }
  }

  /** What a sync without overlap does to the rows. */
  lemma {:induction false} SyncedEachIs(w: World, node: string, updates: seq<Record>)
    requires w.creator in w.nodes && node in w.nodes
    ensures var w2 := SyncedEach(w, node, updates);
      && w2 == w.(nodes := w2.nodes) && w2.nodes.Keys == w.nodes.Keys
      && (forall x :: x in w.nodes && x != node ==> w2.nodes[x] == w.nodes[x])
      && w2.nodes[node] == w.nodes[node].(rows := w2.nodes[node].rows, seen := w2.nodes[node].seen)
      && w2.nodes[node].rows == ApplyUpdates(w.nodes[node].rows, w.issued, w.room, updates)
      && w2.nodes[node].seen <= w.nodes[node].seen + w.issued
    decreases |updates|
  {
    hide SyncedOne, SaveMember, Counts, Newer;
    if updates != [] {
      CountsVerified(w.issued, w.room, updates[0]);
      SyncedOneIs(w, node, updates[0]);
      SyncedEachIs(SyncedOne(w, node, updates[0]), node, updates[1..]);
    }
  }

  /** The whole sync: rows merged, and the room version the watermark when that is above it. */
  lemma SyncedIs(w: World, node: string, updates: seq<Record>)
    requires w.creator in w.nodes && node in w.nodes
    ensures var w2 := Synced(w, node, updates);
      var rows := ApplyUpdates(w.nodes[node].rows, w.issued, w.room, updates);
      && w2.issued == w.issued && w2.nodes.Keys == w.nodes.Keys
      && (forall x :: x in w.nodes && x != node ==> w2.nodes[x] == w.nodes[x])
      && w2.nodes[node].rows == rows && w2.nodes[node].seen <= w.nodes[node].seen + w.issued
      && (w.nodes[node].version in w.nodes[node].past ==>
            w2.nodes[node].version in w2.nodes[node].past && w2.nodes[node].version == Max(w.nodes[node].version, Watermark(rows)))
  {
    hide SyncedEach, ApplyUpdates, Watermark, Writes, Saved;
    SyncedEachIs(w, node, updates);
    var w1 := SyncedEach(w, node, updates);
    var mark := Watermark(w1.nodes[node].rows);
    var w2 := Apply(w1, Mark(node));
    assert w2.nodes[node] == w1.nodes[node].(marks := w1.nodes[node].marks + {mark});
    assert Synced(w, node, updates) == Apply(w2, StoreMark(node, mark, w.nodes[node].version));
  }

  // ----- versions -----

  /** The next admission repeats an issued version exactly when the room version is not the highest issued. */
  lemma NextAdmissionExactly(w: World, device: string, name: string, approval: bool)
    requires Inv(w) && Allowed(w.nodes[w.creator].rows, Join(device, name, approval))
    ensures VersionsDistinct(Handled(w, Join(device, name, approval)).issued) <==> w.nodes[w.creator].version == w.top
  {
    var c, op := w.nodes[w.creator], Join(device, name, approval);
    HandledIs(w, op);
    var r := Draft(w.room, c.rows, op, c.version);
    if c.version < w.top {
      assert Used(w.issued, c.version + 1);
      var s :| s in w.issued && s.version == c.version + 1;
      assert s in w.issued + {r} && r in w.issued + {r};
      assert s.member in c.rows;
    }
  }

  /**
   A write of the room version the creator is about to make, of a version below the
   one it holds: by a sync, by a handler's last step, or with an owner setting.
   */
  predicate Lowers(w: World, step: Step)
    requires w.creator in w.nodes
  {
    var c := w.nodes[w.creator];
    match step
    case StoreMark(node, mark, known) =>
      node == w.creator && known in c.past && mark in c.marks && known < mark < c.version
    case SaveRoom(h) => InStage(w, h, RowSaved) && w.handlers[h].record.version < c.version
    case Rewrite(known) => known in c.past && known < c.version
    case _ => false
  }

  /** A step that issues nothing leaves the room version below the highest issued exactly when it lowers it. */
  lemma LowersExactly(w: World, step: Step)
    requires Inv(w) && w.nodes[w.creator].version == w.top && !step.SaveRow?
    ensures Inv(Apply(w, step)) && Apply(w, step).top == w.top
    ensures Apply(w, step).nodes[w.creator].version == w.top <==> !Lowers(w, step)
  {
    hide Sound, OneDevice, RemovalFinal, AllComplete, NodesFrom, DraftsFollow, VersionsUpTo, Writes, SaveMember, Watermark, CreatorQuiet;
    ApplyKeeps(w, step);
    ApplyBase(w, step);
  }

  /** After a write of the room version the next admission repeats an issued version exactly when that write lowered it. */
  lemma StaleWriteExactly(w: World, step: Step, device: string, name: string, approval: bool)
    requires Inv(w) && w.nodes[w.creator].version == w.top && !step.SaveRow?
    requires Allowed(Apply(w, step).nodes[w.creator].rows, Join(device, name, approval))
    ensures VersionsDistinct(Handled(Apply(w, step), Join(device, name, approval)).issued) <==> !Lowers(w, step)
  {
    hide Apply, Handled, Lowers, VersionsDistinct, Allowed;
    LowersExactly(w, step);
    NextAdmissionExactly(Apply(w, step), device, name, approval);
  }

  // ----- removals -----

  predicate HoldsRemoved(w: World, n: string, m: string) {
    n in w.nodes && m in w.nodes[n].rows && w.nodes[n].rows[m].status == Removed
  }

  predicate HoldsPresent(w: World, n: string, m: string) {
    n in w.nodes && m in w.nodes[n].rows && w.nodes[n].rows[m].status != Removed
  }

  /** After the steps `a` node `n` holds `m` as removed, and after `b` as pending or admitted again. */
  predicate Undoes(w: World, a: seq<SerialStep>, b: seq<SerialStep>, n: string, m: string)
    requires w.creator in w.nodes
  {
    HoldsRemoved(ExecSerial(w, a), n, m) && HoldsPresent(ExecSerial(ExecSerial(w, a), b), n, m)
  }

  ghost predicate Undoable(w: World)
    requires w.creator in w.nodes
  {
    exists a, b, n, m :: Undoes(w, a, b, n, m)
  }

  /** An issued record other than a removal lies above the next version. */
  ghost predicate HigherRecord(w: World, s: Record)
    requires w.creator in w.nodes
  {
    s in w.issued && s.status != Removed && s.version > w.nodes[w.creator].version + 1
  }

  /** No removal lies below another kind of record, of that member or still to be issued. */
  ghost predicate Settled(w: World) {
    && w.creator in w.nodes && w.nodes[w.creator].version in w.nodes[w.creator].past
    && OneDevice(w.issued) && NodesFrom(w.nodes, w.issued) && w.room != "" && AllComplete(w.room, w.issued)
    && NothingAbove(w.issued) && NothingAhead(w.issued, w.nodes[w.creator].version)
    && CreatorKnows(w.nodes[w.creator].rows, w.issued)
  }

  /** Above a removal of a member there are only removals of it. */
  ghost predicate NothingAbove(issued: set<Record>) {
    forall r, s :: r in issued && s in issued && r.member == s.member && r.status == Removed && s.status != Removed ==>
      s.version <= r.version
  }

  /** The next removal will not lie below another kind of record. */
  ghost predicate NothingAhead(issued: set<Record>, version: int) {
    forall s :: s in issued && s.status != Removed ==> s.version <= version + 1
  }

  /** The creator holds every member it issued a record for, as removed if it ever removed it. */
  ghost predicate CreatorKnows(rows: Rows, issued: set<Record>) {
    forall r :: r in issued ==> r.member in rows && (r.status == Removed ==> rows[r.member].status == Removed)
  }

  lemma SettledFromInv(w: World)
    requires Inv(w) && forall s :: !HigherRecord(w, s)
    ensures Settled(w)
  {
    hide DraftsFollow, AllComplete, HandlersBounded;
    RoomNamed(w);
    forall s | s in w.issued && s.status != Removed ensures s.version <= w.nodes[w.creator].version + 1 {
      assert !HigherRecord(w, s);
    }
    assert NothingAhead(w.issued, w.nodes[w.creator].version);
  }

  /** Above a removal there is nothing else, so updates leave a removed row removed. */
  lemma {:induction false} UpdatesKeepRemoved(rows: Rows, issued: set<Record>, room: string, updates: seq<Record>, m: string)
    requires OneDevice(issued) && RowsFrom(rows, issued) && m in rows && rows[m].status == Removed
    requires NothingAbove(issued)
    ensures m in ApplyUpdates(rows, issued, room, updates) && ApplyUpdates(rows, issued, room, updates)[m].status == Removed
    decreases |updates|
  {
    if updates != [] {
      var u := updates[0];
      var rows2 := ApplyOne(rows, issued, room, u);
      assert updates[..1] == [u];
      assert RowsFrom(rows2, issued) by { if Counts(issued, room, u) && Newer(rows, u) { assert rows2[u.member] == u; } }
      UpdatesKeepRemoved(rows2, issued, room, updates[1..], m);
    }
  }

  lemma {:induction false} UpdatesKeepKeys(rows: Rows, issued: set<Record>, room: string, updates: seq<Record>)
    ensures rows.Keys <= ApplyUpdates(rows, issued, room, updates).Keys
    decreases |updates|
  {
    if updates != [] { UpdatesKeepKeys(ApplyOne(rows, issued, room, updates[0]), issued, room, updates[1..]); }
  }

  /** A handler's draft fits what was issued for its member. */
  lemma DraftFits(w: World, op: Op)
    requires Settled(w) && Allowed(w.nodes[w.creator].rows, op)
    ensures var rows := w.nodes[w.creator].rows;
      var r := Draft(w.room, rows, op, w.nodes[w.creator].version);
      && SaveMember(rows, r) == rows[r.member := r] && Complete(w.room, r)
      && (forall s :: s in w.issued && s.member == r.member ==>
           s.device == r.device && s.room == r.room && (s.status == Removed ==> r.status == Removed))
  {
    hide NothingAbove, NothingAhead;
    assert RowsFrom(w.nodes[w.creator].rows, w.issued);
  }

  lemma IssueSettles(issued: set<Record>, rows: Rows, r: Record, version: int)
    requires OneDevice(issued) && NothingAbove(issued) && NothingAhead(issued, version) && CreatorKnows(rows, issued)
    requires r.version == version + 1
    requires forall s :: s in issued && s.member == r.member ==>
      s.device == r.device && s.room == r.room && (s.status == Removed ==> r.status == Removed)
    ensures OneDevice(issued + {r}) && NothingAbove(issued + {r}) && NothingAhead(issued + {r}, version + 1)
    ensures CreatorKnows(rows[r.member := r], issued + {r})
  {
  }

  lemma StoredNodes(nodes: map<string, Node>, issued: set<Record>, n: string, version: int)
    requires NodesFrom(nodes, issued) && n in nodes
    ensures NodesFrom(nodes[n := Stored(nodes[n], version)], issued)
  {
  }

  lemma HandleSettles(w: World, op: Op)
    requires Settled(w)
    ensures Settled(Handled(w, op))
    ensures forall n, m :: n != w.creator && HoldsRemoved(w, n, m) ==> HoldsRemoved(Handled(w, op), n, m)
  {
    hide Handled, Allowed, Draft, OneDevice, NothingAbove, NothingAhead, CreatorKnows, SaveMember, NodesFrom, Complete;
    HandledIs(w, op);
    var c := w.nodes[w.creator];
    if Allowed(c.rows, op) {
      var r := Draft(w.room, c.rows, op, c.version);
      DraftVersion(w.room, c.rows, op, c.version);
      DraftFits(w, op);
      IssueSettles(w.issued, c.rows, r, c.version);
      IssueNodes(w.nodes, w.issued, w.creator, r);
      StoredNodes(w.nodes[w.creator := Saved(c, r)], w.issued + {r}, w.creator, c.version + 1);
      assert Handled(w, op).nodes == w.nodes[w.creator := Saved(c, r)][w.creator := Stored(Saved(c, r), c.version + 1)];
    }
  }

  lemma {:induction false} UpdatesFromIssued(rows: Rows, issued: set<Record>, room: string, updates: seq<Record>)
    requires OneDevice(issued) && RowsFrom(rows, issued)
    ensures RowsFrom(ApplyUpdates(rows, issued, room, updates), issued)
    decreases |updates|
  {
    if updates != [] {
      var m := updates[0];
      var rows2 := ApplyOne(rows, issued, room, m);
      assert RowsFrom(rows2, issued) by {
        if Counts(issued, room, m) && Newer(rows, m) { assert rows2[m.member] == m; }
      }
      UpdatesFromIssued(rows2, issued, room, updates[1..]);
    }
  }

  /** A removal of `m` was issued, and node `n`, if present, holds `m` as removed. */
  ghost predicate StaysOut(w: World, n: string, m: string) {
    && (exists r :: r in w.issued && r.member == m && r.status == Removed)
    && (n in w.nodes ==> HoldsRemoved(w, n, m))
  }

  lemma SyncSettles(w: World, node: string, updates: seq<Record>)
    requires Settled(w) && node in w.nodes
    ensures Settled(Synced(w, node, updates)) && Synced(w, node, updates).nodes.Keys == w.nodes.Keys
    ensures forall n, m :: HoldsRemoved(w, n, m) ==> HoldsRemoved(Synced(w, node, updates), n, m)
  {
    hide ApplyUpdates, Watermark, OneDevice, Synced, AllComplete, NothingAbove;
    var rows := w.nodes[node].rows;
    var w2 := Synced(w, node, updates);
    SyncedIs(w, node, updates);
    assert RowsFrom(rows, w.issued);
    UpdatesFromIssued(rows, w.issued, w.room, updates);
    UpdatesKeepKeys(rows, w.issued, w.room, updates);
    forall m | m in rows && rows[m].status == Removed ensures w2.nodes[node].rows[m].status == Removed {
      UpdatesKeepRemoved(rows, w.issued, w.room, updates, m);
    }
    forall n | n in w2.nodes ensures RowsFrom(w2.nodes[n].rows, w2.issued) && w2.nodes[n].seen <= w2.issued {
      if n != node { assert RowsFrom(w.nodes[n].rows, w.issued); }
    }
  }

  /** Saving the rows of `all` one by one into a node that holds some of them fills it with all listed. */
  lemma {:induction false} FillsRows(w: World, node: string, records: seq<Record>, all: Rows)
    requires w.creator in w.nodes && node in w.nodes && node != w.creator
    requires forall r :: r in records ==> r.member in all && all[r.member] == r && Counts(w.issued, w.room, r)
    requires forall k :: k in w.nodes[node].rows ==> k in all && w.nodes[node].rows[k] == all[k]
    requires multiset(Writes(w.issued, w.room, node, records)) <= w.writes && w.nodes[node].seen <= w.issued
    ensures var w2 := SavedEach(w, node, records);
      && w2.issued == w.issued && w2.nodes.Keys == w.nodes.Keys
      && (forall x :: x in w.nodes && x != node ==> w2.nodes[x] == w.nodes[x])
      && (forall k :: k in w2.nodes[node].rows ==> k in all && w2.nodes[node].rows[k] == all[k])
      && (forall k :: k in w.nodes[node].rows ==> k in w2.nodes[node].rows)
      && (forall r :: r in records ==> r.member in w2.nodes[node].rows)
      && w2.nodes[node].seen <= w.issued
    decreases |records|
  {
    hide Counts, Saved, Writes;
    if records != [] {
      var x := Write(node, records[0]);
      assert records == [records[0]] + records[1..];
      FirstWrite(w.issued, w.room, node, records, w.writes);
      FilledOne(w, x, all);
      hide Apply;
      FillsRows(Apply(w, SaveUpdate(x)), node, records[1..], all);
    }
  }

  lemma FirstWrite(issued: set<Record>, room: string, node: string, records: seq<Record>, writes: multiset<Write>)
    requires records != [] && Counts(issued, room, records[0])
    requires multiset(Writes(issued, room, node, records)) <= writes
    ensures Write(node, records[0]) in writes
    ensures multiset(Writes(issued, room, node, records[1..])) <= writes - multiset{Write(node, records[0])}
  {
    var x, rest := Write(node, records[0]), Writes(issued, room, node, records[1..]);
    assert Writes(issued, room, node, records) == [x] + rest;
    assert multiset([x] + rest) == multiset{x} + multiset(rest);
    assert multiset{x} <= writes;
  }

  lemma FilledOne(w: World, x: Write, all: Rows)
    requires w.creator in w.nodes && x.node in w.nodes && x in w.writes && Counts(w.issued, w.room, x.record)
    requires x.record.member in all && all[x.record.member] == x.record
    requires forall k :: k in w.nodes[x.node].rows ==> k in all && w.nodes[x.node].rows[k] == all[k]
    ensures var w2 := Apply(w, SaveUpdate(x));
      && w2 == w.(nodes := w.nodes[x.node := Saved(w.nodes[x.node], x.record)], writes := w.writes - multiset{x})
      && w2.nodes[x.node].rows == w.nodes[x.node].rows[x.record.member := x.record]
      && (w.nodes[x.node].seen <= w.issued ==> w2.nodes[x.node].seen <= w.issued)
  {
  }

  /** A node that arrives without overlap holds exactly what the creator holds. */
  lemma ArrivedIs(w: World, node: string, own: Record, roster: seq<Record>)
    requires Settled(w) && CanArrive(w, node, own, roster)
    ensures var w2 := Arrived(w, node, own, roster);
      && w2.issued == w.issued && w2.nodes.Keys == w.nodes.Keys + {node}
      && (forall x :: x in w.nodes ==> w2.nodes[x] == w.nodes[x])
      && w2.nodes[node].rows == w.nodes[w.creator].rows && w2.nodes[node].seen <= w.issued
  {
    hide Writes, SaveMember, Saved, NothingAbove, NothingAhead, CreatorKnows;
    var all := w.nodes[w.creator].rows;
    var records := [own] + roster;
    assert RowsFrom(all, w.issued);
    ListedRows(w, roster, all);
    var w1 := Apply(w, Reply(node, own, roster));
    assert w1.answers[|w.answers|] == Answer(node, own.version, records, false);
    var w2 := Apply(w1, Enter(|w.answers|));
    FillsRows(w2, node, records, all);
    var rows := SavedEach(w2, node, records).nodes[node].rows;
    forall k | k in all ensures k in rows { assert all[k] in roster && all[k] in records; }
    assert rows == all;
  }

  lemma ListedRows(w: World, roster: seq<Record>, all: Rows)
    requires RowsFrom(all, w.issued) && AllComplete(w.room, w.issued) && Lists(roster, all)
    ensures forall r :: r in roster ==> r.member in all && all[r.member] == r
    ensures forall k :: k in all ==> all[k] in roster && Counts(w.issued, w.room, all[k])
  {
    forall r | r in roster ensures r.member in all && all[r.member] == r {
      assert r in (set x | x in roster) && r in Values(all);
      var k :| k in all && all[k] == r;
    }
    forall k | k in all ensures all[k] in roster && Counts(w.issued, w.room, all[k]) {
      assert all[k] in Values(all) && all[k] in (set x | x in roster);
    }
  }

  lemma ArriveSettles(w: World, node: string, own: Record, roster: seq<Record>)
    requires Settled(w)
    ensures var w2 := Arrived(w, node, own, roster);
      && Settled(w2) && w2.issued == w.issued
      && (forall n :: n in w.nodes ==> n in w2.nodes && w2.nodes[n] == w.nodes[n])
      && (forall n :: n in w2.nodes && n !in w.nodes ==> w2.nodes[n].rows == w.nodes[w.creator].rows)
  {
    hide OneDevice, AllComplete, NothingAbove, NothingAhead, CreatorKnows, CanArrive;
    if CanArrive(w, node, own, roster) {
      hide Arrived;
      ArrivedIs(w, node, own, roster);
      assert RowsFrom(w.nodes[w.creator].rows, w.issued);
    }
  }

  lemma StepSettles(w: World, step: SerialStep, n: string, m: string)
    requires Settled(w) && StaysOut(w, n, m)
    ensures Settled(ApplySerial(w, step)) && StaysOut(ApplySerial(w, step), n, m)
  {
    hide Handled, Synced, Arrived;
    var r :| r in w.issued && r.member == m && r.status == Removed;
    assert r in ApplySerial(w, step).issued;
    assert m in w.nodes[w.creator].rows && w.nodes[w.creator].rows[m].status == Removed;
    match step
    case Handle(op) =>
      HandleSettles(w, op);
      HandledIs(w, op);
    case Sync(node, updates) => if node in w.nodes { SyncSettles(w, node, updates); }
    case Arrive(node, own, roster) => ArriveSettles(w, node, own, roster);
    case Depart(node) =>
  }

  lemma SettledFacts(w: World)
    requires Settled(w)
    ensures w.creator in w.nodes
  {
  }

  lemma {:induction false} RunSettles(w: World, steps: seq<SerialStep>, n: string, m: string)
    requires Settled(w) && StaysOut(w, n, m)
    ensures StaysOut(ExecSerial(w, steps), n, m)
    decreases |steps|
  {
    hide Settled, StaysOut, ApplySerial;
    SettledFacts(w);
    if steps != [] {
      StepSettles(w, steps[0], n, m);
      RunSettles(ApplySerial(w, steps[0]), steps[1..], n, m);
    }
  }

  lemma StepSettlesAlone(w: World, step: SerialStep)
    requires Settled(w)
    ensures Settled(ApplySerial(w, step))
  {
    hide Handled, Synced, Arrived;
    match step
    case Handle(op) => HandleSettles(w, op);
    case Sync(node, updates) => if node in w.nodes { SyncSettles(w, node, updates); }
    case Arrive(node, own, roster) => ArriveSettles(w, node, own, roster);
    case Depart(node) =>
  }

  lemma {:induction false} RunSettled(w: World, steps: seq<SerialStep>)
    requires Settled(w)
    ensures Settled(ExecSerial(w, steps))
    decreases |steps|
  {
    hide Settled, ApplySerial;
    SettledFacts(w);
    if steps != [] {
      StepSettlesAlone(w, steps[0]);
      RunSettled(ApplySerial(w, steps[0]), steps[1..]);
    }
  }

  lemma SettledNeverUndoes(w: World, a: seq<SerialStep>, b: seq<SerialStep>, n: string, m: string)
    requires Settled(w)
    ensures !Undoes(w, a, b, n, m)
  {
    hide ExecSerial;
    RunSettled(w, a);
    var w1 := ExecSerial(w, a);
    if HoldsRemoved(w1, n, m) {
      assert RowsFrom(w1.nodes[n].rows, w1.issued);
      assert StaysOut(w1, n, m);
      RunSettles(w1, b, n, m);
    }
  }

  /** Removing the member of a higher record and then hearing of that record readmits it on the creator. */
  lemma HigherRecordUndoes(w: World, s: Record)
    requires w.creator in w.nodes && w.nodes[w.creator].version in w.nodes[w.creator].past
    requires HigherRecord(w, s) && Complete(w.room, s)
    requires s.member in w.nodes[w.creator].rows && w.nodes[w.creator].rows[s.member].member == s.member
    ensures Undoes(w, [Handle(Remove(s.member))], [Sync(w.creator, [s])], w.creator, s.member)
  {
    hide Handled, Synced;
    var c, op := w.nodes[w.creator], Remove(s.member);
    var r := Draft(w.room, c.rows, op, c.version);
    HandledIs(w, op);
    var w1 := Handled(w, op);
    assert [Handle(op)][1..] == [];
    assert ExecSerial(w, [Handle(op)]) == ExecSerial(w1, []) == w1;
    var rows := w1.nodes[w.creator].rows;
    assert rows[s.member].status == Removed && rows[s.member].version == c.version + 1;
    var sync := Sync(w.creator, [s]);
    assert ApplyUpdates(rows, w1.issued, w.room, [s]) == SaveMember(rows, s) by { assert [s][1..] == []; }
    var w2 := ApplySerial(w1, sync);
    SyncedIs(w1, w.creator, [s]);
    assert w2.nodes[w.creator].rows == SaveMember(rows, s);
    assert [sync][1..] == [];
    assert ExecSerial(w1, [sync]) == ExecSerial(w2, []) == w2;
  }

  /**
   From any state orderly handlers reach, with no overlap from then on: some
   continuation readmits a removed member exactly when an issued record other than a
   removal lies above the next version the creator will issue.
   */
  lemma RemovalUndoableExactly(w: World)
    requires Inv(w)
    ensures Undoable(w) <==> exists s :: HigherRecord(w, s)
  {
    hide Inv, Undoes, Settled;
    InvBase(w);
    if s :| HigherRecord(w, s) {
      HigherRecordHeld(w, s);
      HigherRecordUndoes(w, s);
    } else {
      SettledFromInv(w);
      forall a, b, n, m ensures !Undoes(w, a, b, n, m) { SettledNeverUndoes(w, a, b, n, m); }
    }
  }

  lemma HigherRecordHeld(w: World, s: Record)
    requires Inv(w) && HigherRecord(w, s)
    ensures w.nodes[w.creator].version in w.nodes[w.creator].past && Complete(w.room, s)
    ensures s.member in w.nodes[w.creator].rows && w.nodes[w.creator].rows[s.member].member == s.member
  {
  }

  // ----- runs that undo a removal -----

  const HOST_DEVICE := "aaaaaaaaaaaaaaaa"
  const DEVICE_B := "bbbbbbbbbbbbbbbb"
  const DEVICE_C := "cccccccccccccccc"
  const DEVICE_D := "dddddddddddddddd"
  const MEMBER_A := "m-aaaaaaaaaaaaaaaa"
  const MEMBER_B := "m-bbbbbbbbbbbbbbbb"
  const MEMBER_C := "m-cccccccccccccccc"
  const MEMBER_D := "m-dddddddddddddddd"

  function RowA(): Record { Record(MEMBER_A, "room", HOST_DEVICE, "A", Admitted, 1) }

  /** A new room. */
  function Room(): World {
    Host("room", "host", HOST_DEVICE, "A")
  }

  lemma Names()
    ensures MemberId(HOST_DEVICE) == MEMBER_A && MemberId(DEVICE_B) == MEMBER_B
    ensures MemberId(DEVICE_C) == MEMBER_C && MemberId(DEVICE_D) == MEMBER_D
    ensures MEMBER_A[2] != MEMBER_B[2] && MEMBER_A[2] != MEMBER_C[2] && MEMBER_A[2] != MEMBER_D[2]
    ensures MEMBER_B[2] != MEMBER_C[2] && MEMBER_B[2] != MEMBER_D[2] && MEMBER_C[2] != MEMBER_D[2]
  {
  }

  /** The creator's side of a world, as the runs below follow it. */
  ghost predicate CreatorIs(w: World, rows: Rows, version: int) {
    && w.creator == "host" && w.room == "room" && "host" in w.nodes
    && w.nodes["host"].rows == rows && w.nodes["host"].version == version && version in w.nodes["host"].past
  }

  /** One handler without overlap, as a step of such a run. */
  lemma Follow(w: World, rows: Rows, version: int, op: Op)
    requires CreatorIs(w, rows, version) && Allowed(rows, op)
    ensures var r := Draft("room", rows, op, version);
      && CreatorIs(Handled(w, op), SaveMember(rows, r), version + 1)
      && Handled(w, op).issued == w.issued + {r} && Handled(w, op).handlers == w.handlers + [Handler(r, Finished)]
      && w.nodes["host"].past <= Handled(w, op).nodes["host"].past
      && Handled(w, op).answers == w.answers && Handled(w, op).nodes.Keys == w.nodes.Keys
  {
    HandledIs(w, op);
  }

  /**
   A stale sync. Two devices join and one is approved while a sync of the creator is
   under way; the sync then computes watermark 2 and stores it over version 4, and the
   next removal of the approved member can be undone.
   */
  lemma StaleSyncUndoesRemoval() returns (w: World, approval: Record)
    ensures w == Handled(Handled(Handled(Room(), Join(DEVICE_B, "B", true)), Join(DEVICE_C, "C", true)), Approve(MEMBER_C))
    ensures Lowers(Apply(w, Mark("host")), StoreMark("host", 2, 1))
    ensures Undoes(Apply(Apply(w, Mark("host")), StoreMark("host", 2, 1)), [Handle(Remove(MEMBER_C))], [Sync("host", [approval])], "host", MEMBER_C)
  {
    hide Handled, Undoes;
    Names();
    var rows1: Rows := map[MEMBER_A := RowA()];
    var rows2 := rows1[MEMBER_B := Record(MEMBER_B, "room", DEVICE_B, "B", Pending, 2)];
    var rows3 := rows2[MEMBER_C := Record(MEMBER_C, "room", DEVICE_C, "C", Pending, 3)];
    approval := Record(MEMBER_C, "room", DEVICE_C, "C", Admitted, 4);
    var rows4 := rows3[MEMBER_C := approval];
    var w1 := Handled(Room(), Join(DEVICE_B, "B", true));
    var w2 := Handled(w1, Join(DEVICE_C, "C", true));
    w := Handled(w2, Approve(MEMBER_C));
    Follow(Room(), rows1, 1, Join(DEVICE_B, "B", true));
    Follow(w1, rows2, 2, Join(DEVICE_C, "C", true));
    Follow(w2, rows3, 3, Approve(MEMBER_C));
    WatermarkTwo(rows4);
    HigherRecordUndoes(Apply(Apply(w, Mark("host")), StoreMark("host", 2, 1)), approval);
  }

  lemma WatermarkTwo(rows: Rows)
    requires rows.Keys == {MEMBER_A, MEMBER_B, MEMBER_C}
    requires rows[MEMBER_A].version == 1 && rows[MEMBER_B].version == 2 && rows[MEMBER_C].version == 4
    ensures Watermark(rows) == 2
  {
    FirstGapIs(Versions(rows), 1);
    assert 1 in Versions(rows) && 2 in Versions(rows) && 3 !in Versions(rows);
  }

  /**
   Overlapping handlers. A removal and an approval of the same pending member both
   read version 2; the removal's row is saved first and the approval's over it.
   */
  lemma OverlapUndoesRemoval() returns (w: World)
    ensures w == Exec(Handled(Room(), Join(DEVICE_C, "C", true)), [Begin(Remove(MEMBER_C), 2), Begin(Approve(MEMBER_C), 2), SaveRow(1)])
    ensures HoldsRemoved(w, "host", MEMBER_C) && HoldsPresent(Apply(w, SaveRow(2)), "host", MEMBER_C)
    ensures Reuses(w, SaveRow(2))
  {
    hide Handled;
    Names();
    var rows1: Rows := map[MEMBER_A := RowA()];
    var pending := Record(MEMBER_C, "room", DEVICE_C, "C", Pending, 2);
    var rows2 := rows1[MEMBER_C := pending];
    var w1 := Handled(Room(), Join(DEVICE_C, "C", true));
    Follow(Room(), rows1, 1, Join(DEVICE_C, "C", true));
    assert CreatorIs(w1, rows2, 2);
    ExecThree(w1, Begin(Remove(MEMBER_C), 2), Begin(Approve(MEMBER_C), 2), SaveRow(1));
    w := Overlapped(w1, pending);
  }

  lemma Overlapped(w: World, pending: Record) returns (w2: World)
    requires w.creator == "host" && "host" in w.nodes && 2 in w.nodes["host"].past && |w.handlers| == 1
    requires pending == Record(MEMBER_C, "room", DEVICE_C, "C", Pending, 2)
    requires MEMBER_C in w.nodes["host"].rows && w.nodes["host"].rows[MEMBER_C] == pending
    requires forall r :: r in w.issued ==> r.version <= 2
    ensures w2 == Apply(Apply(Apply(w, Begin(Remove(MEMBER_C), 2)), Begin(Approve(MEMBER_C), 2)), SaveRow(1))
    ensures HoldsRemoved(w2, "host", MEMBER_C) && HoldsPresent(Apply(w2, SaveRow(2)), "host", MEMBER_C)
    ensures Reuses(w2, SaveRow(2))
  {
    hide Writes;
    var w1 := Apply(Apply(w, Begin(Remove(MEMBER_C), 2)), Begin(Approve(MEMBER_C), 2));
    assert w1.handlers[1] == Handler(pending.(status := Removed, version := 3), Signed);
    assert w1.handlers[2] == Handler(pending.(status := Admitted, version := 3), Signed);
    w2 := Apply(w1, SaveRow(1));
  }

  lemma ExecThree(w: World, a: Step, b: Step, c: Step)
    requires w.creator in w.nodes
    ensures Exec(w, [a, b, c]) == Apply(Apply(Apply(w, a), b), c)
  {
    hide Apply;
    assert [a, b, c][1..] == [b, c] && [b, c][1..] == [c] && [c][1..] == [];
    assert Exec(Apply(Apply(w, a), b), [c]) == Exec(Apply(Apply(Apply(w, a), b), c), []);
  }

  /**
   A slow handler. A removal that read version 2 is held up while two devices join
   and one is approved; it then stores version 3 over version 5, and the next removal
   of the approved member can be undone.
   */
  lemma SlowRemovalUndoesNext() returns (w: World, approval: Record)
    ensures var held := Apply(Handled(Room(), Join(DEVICE_B, "B", true)), Begin(Remove(MEMBER_B), 2));
      w == Handled(Handled(Handled(held, Join(DEVICE_C, "C", true)), Join(DEVICE_D, "D", true)), Approve(MEMBER_C))
    ensures Lowers(Apply(w, SaveRow(1)), SaveRoom(1))
    ensures Undoes(Apply(Apply(w, SaveRow(1)), SaveRoom(1)), [Handle(Remove(MEMBER_C))], [Sync("host", [approval])], "host", MEMBER_C)
  {
    hide Handled, Undoes;
    Names();
    var rows1: Rows := map[MEMBER_A := RowA()];
    var rows2 := rows1[MEMBER_B := Record(MEMBER_B, "room", DEVICE_B, "B", Pending, 2)];
    var rows3 := rows2[MEMBER_C := Record(MEMBER_C, "room", DEVICE_C, "C", Pending, 3)];
    var rows4 := rows3[MEMBER_D := Record(MEMBER_D, "room", DEVICE_D, "D", Pending, 4)];
    approval := Record(MEMBER_C, "room", DEVICE_C, "C", Admitted, 5);
    var w1 := Handled(Room(), Join(DEVICE_B, "B", true));
    var held := Apply(w1, Begin(Remove(MEMBER_B), 2));
    var w2 := Handled(held, Join(DEVICE_C, "C", true));
    var w3 := Handled(w2, Join(DEVICE_D, "D", true));
    w := Handled(w3, Approve(MEMBER_C));
    Follow(Room(), rows1, 1, Join(DEVICE_B, "B", true));
    assert CreatorIs(held, rows2, 2) && held.handlers[1].record.version == 3 && held.handlers[1].record.member == MEMBER_B;
    Follow(held, rows2, 2, Join(DEVICE_C, "C", true));
    Follow(w2, rows3, 3, Join(DEVICE_D, "D", true));
    Follow(w3, rows4, 4, Approve(MEMBER_C));
    assert w.handlers[1] == held.handlers[1];
    SlowWrite(w, approval);
  }

  lemma SlowWrite(w: World, approval: Record)
    requires "host" in w.nodes && w.creator == "host" && w.room == "room" && w.nodes["host"].version == 5
    requires InStage(w, 1, Signed) && w.handlers[1].record.version == 3 && w.handlers[1].record.member == MEMBER_B
    requires approval == Record(MEMBER_C, "room", DEVICE_C, "C", Admitted, 5) && approval in w.issued
    requires MEMBER_C in w.nodes["host"].rows && w.nodes["host"].rows[MEMBER_C] == approval
    ensures Lowers(Apply(w, SaveRow(1)), SaveRoom(1))
    ensures Undoes(Apply(Apply(w, SaveRow(1)), SaveRoom(1)), [Handle(Remove(MEMBER_C))], [Sync("host", [approval])], "host", MEMBER_C)
  {
    hide Undoes;
    Names();
    HigherRecordUndoes(Apply(Apply(w, SaveRow(1)), SaveRoom(1)), approval);
  }

  // ----- writes decided on too early -----

  /** What a passed test and a later write do to a node, as steps. */
  lemma Tested(w: World, n: string, u: Record)
    requires w.creator in w.nodes && n in w.nodes && Counts(w.issued, w.room, u) && Newer(w.nodes[n].rows, u)
    ensures Apply(w, Test(n, u)) == w.(writes := w.writes + multiset{Write(n, u)})
  {
  }

  lemma Written(w: World, x: Write)
    requires w.creator in w.nodes && x.node in w.nodes && x in w.writes
    ensures Apply(w, SaveUpdate(x)) == w.(nodes := w.nodes[x.node := Saved(w.nodes[x.node], x.record)], writes := w.writes - multiset{x})
  {
  }

  lemma SavedRow(n: Node, u: Record)
    ensures u.member in Saved(n, u).rows
    ensures Saved(n, u).rows[u.member].status == u.status && Saved(n, u).rows[u.member].version == u.version
  {
  }

  /**
   Two overlapping syncs of one node. One finds an admission newer than the row held
   and another a removal; the removal is saved first and the admission over it. This
   happens at any node whose row is below both.
   */
  lemma OverlappingSyncsUndo(w: World, n: string, s: Record, r: Record)
    requires Inv(w) && n in w.nodes && s in w.issued && r in w.issued && s.member == r.member
    requires r.status == Removed && s.status != Removed && Newer(w.nodes[n].rows, s) && Newer(w.nodes[n].rows, r)
    ensures var w1 := Exec(w, [Test(n, s), Test(n, r), SaveUpdate(Write(n, r))]);
      && HoldsRemoved(w1, n, r.member) && HoldsPresent(Apply(w1, SaveUpdate(Write(n, s))), n, r.member)
      && !Forward(w1, Write(n, s))
  {
    hide Inv, Apply, Saved, Counts, Newer;
    InvBase(w);
    IssuedCounts(w, s);
    IssuedCounts(w, r);
    RemovalAbove(w, s, r);
    ExecThree(w, Test(n, s), Test(n, r), SaveUpdate(Write(n, r)));
    Tested(w, n, s);
    var w1 := Apply(w, Test(n, s));
    Tested(w1, n, r);
    var w2 := Apply(w1, Test(n, r));
    Written(w2, Write(n, r));
    var w3 := Apply(w2, SaveUpdate(Write(n, r)));
    Written(w3, Write(n, s));
    SavedRow(w.nodes[n], r);
    SavedRow(w3.nodes[n], s);
  }

  lemma RemovalAbove(w: World, s: Record, r: Record)
    requires Inv(w) && s in w.issued && r in w.issued && s.member == r.member && r.status == Removed && s.status != Removed
    ensures s.version < r.version
  {
  }

  /**
   Any row decided on before a removal was saved, by a sync or by a joining node that
   works through the roster it was answered, undoes the removal when it is saved after.
   */
  lemma LateWriteUndoes(w: World, x: Write)
    requires Inv(w) && x in w.writes && HoldsRemoved(w, x.node, x.record.member) && x.record.status != Removed
    ensures HoldsPresent(Apply(w, SaveUpdate(x)), x.node, x.record.member) && !Forward(w, x)
  {
    hide Writes, Watermark, DraftsFollow, CreatorQuiet;
    assert x.record in w.issued;
    assert RowsFrom(w.nodes[x.node].rows, w.issued);
    RemovalAbove(w, x.record, w.nodes[x.node].rows[x.record.member]);
  }

  /** A node that has left and come back, before it has saved anything. */
  lemma CameBack(w: World, n: string, own: Record, roster: seq<Record>)
    requires w.creator in w.nodes && n in w.nodes && n != w.creator
    requires own in w.issued && own.status == Admitted && Lists(roster, w.nodes[w.creator].rows)
    ensures var w3 := Apply(Apply(Apply(w, Leave(n)), Reply(n, own, roster)), Enter(|w.answers|));
      w3.issued == w.issued && n in w3.nodes && w3.nodes[n].rows == map[]
  {
    hide Writes, Lists;
    var w1 := Apply(w, Leave(n));
    var w2 := Apply(w1, Reply(n, own, roster));
    assert w2.answers[|w.answers|] == Answer(n, own.version, [own] + roster, false);
  }

  /**
   A node that leaves forgets: back in the room, before it has saved the roster, it
   takes a stale record for news. So finality lasts as long as the node stays.
   */
  lemma RejoiningForgets(w: World, n: string, own: Record, roster: seq<Record>, s: Record)
    requires Inv(w) && n in w.nodes && n != w.creator && HoldsRemoved(w, n, s.member)
    requires s in w.issued && s.status != Removed && own in w.issued && own.status == Admitted && Lists(roster, w.nodes[w.creator].rows)
    ensures var steps := [Leave(n), Reply(n, own, roster), Enter(|w.answers|), Test(n, s), SaveUpdate(Write(n, s))];
      Orderly(w, steps) && AllForward(w, steps, n) && HoldsPresent(Exec(w, steps), n, s.member)
  {
    hide Inv, Apply, Saved, Counts, Lists, Orderly, AllForward, Exec;
    InvBase(w);
    IssuedCounts(w, s);
    CameBack(w, n, own, roster);
    var w1 := Apply(w, Leave(n));
    var w2 := Apply(w1, Reply(n, own, roster));
    var w3 := Apply(w2, Enter(|w.answers|));
    Tested(w3, n, s);
    var w4 := Apply(w3, Test(n, s));
    Written(w4, Write(n, s));
    SavedRow(w4.nodes[n], s);
    var r4 := [SaveUpdate(Write(n, s))] + [];
    var r3 := [Test(n, s)] + r4;
    var r2 := [Enter(|w.answers|)] + r3;
    var r1 := [Reply(n, own, roster)] + r2;
    OneStep(w4, SaveUpdate(Write(n, s)), [], n);
    OneStep(w3, Test(n, s), r4, n);
    OneStep(w2, Enter(|w.answers|), r3, n);
    OneStep(w1, Reply(n, own, roster), r2, n);
    OneStep(w, Leave(n), r1, n);
    assert [Leave(n)] + r1 == [Leave(n), Reply(n, own, roster), Enter(|w.answers|), Test(n, s), SaveUpdate(Write(n, s))];
    NoSteps(Apply(w4, SaveUpdate(Write(n, s))), n);
  }

  lemma NoSteps(w: World, n: string)
    requires w.creator in w.nodes
    ensures Exec(w, []) == w && Orderly(w, []) && AllForward(w, [], n)
  {
  }

  lemma OneStep(w: World, step: Step, rest: seq<Step>, n: string)
    requires w.creator in w.nodes && !step.SaveRow?
    ensures Exec(w, [step] + rest) == Exec(Apply(w, step), rest)
    ensures Orderly(w, [step] + rest) <==> Orderly(Apply(w, step), rest)
    ensures AllForward(w, [step] + rest, n) <==> ForwardAt(w, step, n) && AllForward(Apply(w, step), rest, n)
  {
    hide Apply, ForwardAt;
    assert ([step] + rest)[0] == step && ([step] + rest)[1..] == rest;
  }

  lemma IssuedCounts(w: World, s: Record)
    requires Inv(w) && s in w.issued
    ensures Counts(w.issued, w.room, s)
  {
  }

  /** Handlers that nothing overlaps, working from the highest version, are orderly. */
  lemma HandledKeeps(w: World, op: Op)
    requires Inv(w) && w.nodes[w.creator].version == w.top
    ensures Inv(Handled(w, op)) && Handled(w, op).nodes[w.creator].version == Handled(w, op).top
  {
    hide Inv, Writes, SaveMember, Allowed, Draft;
    InvBase(w);
    var c, h := w.nodes[w.creator], |w.handlers|;
    var w1 := Apply(w, Begin(op, c.version));
    ApplyKeeps(w, Begin(op, c.version));
    if Allowed(c.rows, op) {
      DraftVersion(w.room, c.rows, op, c.version);
      assert c.version in c.past;
      assert w1.handlers[h] == Handler(Draft(w.room, c.rows, op, c.version), Signed) && Current(w1, h);
    }
    var w2 := Apply(w1, SaveRow(h));
    ApplyKeeps(w1, SaveRow(h));
    ApplyKeeps(w2, SaveRoom(h));
  }

  /**
   Such a run from a new room, every handler orderly: two devices are admitted and one
   of them removed; the other enters, and before it has saved its roster two of its
   syncs overlap.
   */
  lemma OverlappingSyncsRun() returns (w: World, admission: Record, removal: Record)
    ensures exists roster ::
      w == Apply(Apply(
        Handled(Handled(Handled(Room(), Join(DEVICE_B, "B", false)), Join(DEVICE_C, "C", false)), Remove(MEMBER_C)),
        Reply("node", Record(MEMBER_B, "room", DEVICE_B, "B", Admitted, 2), roster)), Enter(0))
    ensures Inv(w) && "node" in w.nodes && admission.member == MEMBER_C && removal.member == MEMBER_C
    ensures var w1 := Exec(w, [Test("node", admission), Test("node", removal), SaveUpdate(Write("node", removal))]);
      HoldsRemoved(w1, "node", MEMBER_C) && HoldsPresent(Apply(w1, SaveUpdate(Write("node", admission))), "node", MEMBER_C)
  {
    hide Handled, Inv;
    Names();
    var rowB := Record(MEMBER_B, "room", DEVICE_B, "B", Admitted, 2);
    admission := Record(MEMBER_C, "room", DEVICE_C, "C", Admitted, 3);
    removal := admission.(status := Removed, version := 4);
    var rows1: Rows := map[MEMBER_A := RowA()];
    var rows2 := rows1[MEMBER_B := rowB];
    var rows3 := rows2[MEMBER_C := admission];
    HostInv("room", "host", HOST_DEVICE, "A");
    var w1 := Handled(Room(), Join(DEVICE_B, "B", false));
    var w2 := Handled(w1, Join(DEVICE_C, "C", false));
    var w3 := Handled(w2, Remove(MEMBER_C));
    Follow(Room(), rows1, 1, Join(DEVICE_B, "B", false));
    HandledKeeps(Room(), Join(DEVICE_B, "B", false));
    Follow(w1, rows2, 2, Join(DEVICE_C, "C", false));
    HandledKeeps(w1, Join(DEVICE_C, "C", false));
    Follow(w2, rows3, 3, Remove(MEMBER_C));
    HandledKeeps(w2, Remove(MEMBER_C));
    w := EntersAlone(w3, rowB);
    OverlappingSyncsUndo(w, "node", admission, removal);
  }

  /** A node that has entered and not yet saved anything. */
  lemma EntersAlone(w: World, own: Record) returns (w2: World)
    requires Inv(w) && w.answers == [] && w.creator == "host" && "node" !in w.nodes && own in w.issued && own.status == Admitted
    ensures exists roster :: w2 == Apply(Apply(w, Reply("node", own, roster)), Enter(0))
    ensures Inv(w2) && "node" in w2.nodes && w2.nodes["node"].rows == map[] && w2.issued == w.issued
  {
    hide Inv, Writes;
    InvBase(w);
    var roster := Listing(w.nodes[w.creator].rows);
    var w1 := Apply(w, Reply("node", own, roster));
    ApplyKeeps(w, Reply("node", own, roster));
    w2 := Apply(w1, Enter(0));
    ApplyKeeps(w1, Enter(0));
    assert w2 == Apply(Apply(w, Reply("node", own, roster)), Enter(0));
  }

  lemma {:induction false} Listing(rows: Rows) returns (roster: seq<Record>)
    ensures Lists(roster, rows)
    decreases rows.Keys
  {
    if rows.Keys == {} {
      roster := [];
      assert rows == map[];
    } else {
      var k :| k in rows.Keys;
      var rest := Listing(rows - {k});
      roster := [rows[k]] + rest;
      forall r ensures r in Values(rows) <==> r in Values(rows - {k}) + {rows[k]} {
        if r in Values(rows) {
          var j :| j in rows && rows[j] == r;
          assert j != k ==> (rows - {k})[j] == r;
        }
      }
    }
  }
}
