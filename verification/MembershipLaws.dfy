/**
 What the creator's handlers and a node's updates do, read off the fields of the rows.
 */
module MembershipLaws {
  import opened Membership
  import opened MembershipWorld
  import opened MembershipStale

  /** The creator issued `r`, holds it, and stored its version. */
  predicate Issues(w: World, w2: World, r: Record)
    requires w.creator in w.nodes
  {
    && w2.creator == w.creator && w2.creator in w2.nodes
    && w2.issued == w.issued + {r}
    && w2.nodes[w.creator].rows == w.nodes[w.creator].rows[r.member := r]
    && w2.nodes[w.creator].version == r.version == w.nodes[w.creator].version + 1
  }

  /** A state in which handlers were orderly so far. */
  lemma CreatorRow(w: World, member: string)
    requires Inv(w) && member in w.nodes[w.creator].rows
    ensures var r := w.nodes[w.creator].rows[member]; r in w.issued && r.member == member && r.room == w.room
    ensures w.nodes[w.creator].version in w.nodes[w.creator].past
  {
    assert Complete(w.room, w.nodes[w.creator].rows[member]);
  }

  /**
   A join that nothing overlaps: refused exactly without a long enough key, without a
   name, or when the creator holds a row for that device, whatever its status; otherwise
   the device becomes pending or admitted as the room's mode says.
   */
  lemma JoinDoes(w: World, device: string, name: string, approval: bool)
    requires Inv(w)
    ensures var rows := w.nodes[w.creator].rows;
      var w2 := Handled(w, Join(device, name, approval));
      if |device| < 16 || name == "" || "m-" + device[..16] in rows then w2 == w
      else Issues(w, w2, Record("m-" + device[..16], w.room, device, name, if approval then Pending else Admitted,
                                w.nodes[w.creator].version + 1))
  {
    hide Handled;
    InvBase(w);
    HandledIs(w, Join(device, name, approval));
  }

  /** An approval that nothing overlaps: refused exactly for a member not pending; otherwise the same device is admitted. */
  lemma ApproveDoes(w: World, member: string)
    requires Inv(w)
    ensures var rows := w.nodes[w.creator].rows;
      var w2 := Handled(w, Approve(member));
      if member !in rows || rows[member].status != Pending then w2 == w
      else Issues(w, w2, Record(member, w.room, rows[member].device, rows[member].name, Admitted, w.nodes[w.creator].version + 1))
  {
    hide Handled;
    InvBase(w);
    HandledIs(w, Approve(member));
    if member in w.nodes[w.creator].rows { CreatorRow(w, member); }
  }

  /** A removal that nothing overlaps: refused exactly for a member the creator does not hold; otherwise that device is removed. */
  lemma RemoveDoes(w: World, member: string)
    requires Inv(w)
    ensures var rows := w.nodes[w.creator].rows;
      var w2 := Handled(w, Remove(member));
      if member !in rows then w2 == w
      else Issues(w, w2, Record(member, w.room, rows[member].device, rows[member].name, Removed, w.nodes[w.creator].version + 1))
  {
    hide Handled;
    InvBase(w);
    HandledIs(w, Remove(member));
    if member in w.nodes[w.creator].rows { CreatorRow(w, member); }
  }

  /** The row at `k` is as before, or takes status and version of an update of this room that the authority issued complete. */
  ghost predicate Sourced(before: Rows, after: Rows, issued: set<Record>, room: string, updates: seq<Record>, k: string)
    requires k in after
  {
    || (k in before && after[k] == before[k])
    || exists u :: u in updates && u in issued && u.room == room && u.member == k
         && u.member != "" && u.room != "" && u.device != "" && u.name != ""
         && after[k].status == u.status && after[k].version == u.version && after[k].name == u.name
  }

  /** Nothing else reaches a roster: no record of another room, none the authority did not issue, none incomplete. */
  lemma {:induction false} OnlyIssuedApplied(rows: Rows, issued: set<Record>, room: string, updates: seq<Record>, k: string)
    requires k in ApplyUpdates(rows, issued, room, updates)
    ensures Sourced(rows, ApplyUpdates(rows, issued, room, updates), issued, room, updates, k)
    decreases |updates|
  {
    if updates != [] {
      var rows1 := ApplyOne(rows, issued, room, updates[0]);
      OnlyIssuedApplied(rows1, issued, room, updates[1..], k);
      SourcedEarlier(rows, rows1, ApplyUpdates(rows, issued, room, updates), issued, room, updates, k);
    }
  }

  lemma SourcedEarlier(rows: Rows, rows1: Rows, after: Rows, issued: set<Record>, room: string, updates: seq<Record>, k: string)
    requires updates != [] && rows1 == ApplyOne(rows, issued, room, updates[0]) && k in after
    requires Sourced(rows1, after, issued, room, updates[1..], k)
    ensures Sourced(rows, after, issued, room, updates, k)
  {
    var u := updates[0];
    assert u in updates;
    if k in rows1 && after[k] == rows1[k] {
      if !(k in rows && rows1[k] == rows[k]) { assert u.member == k; }
    } else {
      var x :| x in updates[1..] && x in issued && x.room == room && x.member == k
        && x.member != "" && x.room != "" && x.device != "" && x.name != ""
        && after[k].status == x.status && after[k].version == x.version && after[k].name == x.name;
      assert x in updates;
    }
  }

  /**
   One update: it changes the row of its member exactly when the authority issued it
   complete for this room and no row of at least its version is held; a row held keeps
   its device, and no other row changes.
   */
  lemma UpdateDoes(rows: Rows, issued: set<Record>, room: string, u: Record)
    ensures var after := ApplyUpdates(rows, issued, room, [u]);
      if u in issued && u.room == room && u.member != "" && u.room != "" && u.device != "" && u.name != ""
         && !(u.member in rows && u.version <= rows[u.member].version)
      then
        && after.Keys == rows.Keys + {u.member}
        && (u.member !in rows ==> after[u.member] == u)
        && (u.member in rows ==>
              after[u.member] == Record(rows[u.member].member, rows[u.member].room, rows[u.member].device, u.name, u.status, u.version))
        && (forall m :: m in rows && m != u.member ==> after[m] == rows[m])
      else after == rows
  {
    assert ApplyUpdates(rows, issued, room, [u]) == ApplyUpdates(ApplyOne(rows, issued, room, u), issued, room, []);
  }

  /**
   What a responder sends: with versions reported, its rows of members not reported and
   those above the version reported; with none, those above the room version reported.
   */
  lemma SentExactly(answer: seq<Record>, responder: Rows, known: map<string, int>, knownVersion: int, m: string)
    requires IsAnswer(answer, responder, known, knownVersion) && m in responder && responder[m].member == m
    ensures responder[m] in answer <==>
      if known == map[] then responder[m].version > knownVersion
      else m in known ==> responder[m].version > known[m]
  {
    assert responder[m] in Values(responder);
  }
}
