/**
 A conversation stored as a tree: rows with a parent and an active flag, the two
 writes that change them, and the two walks that read a transcript out of them.
 */
module ChatTree {
  import opened Ordering

  datatype Msg = Msg(id: string, role: string, content: string, createdAt: int, rowid: nat, parent: string, active: bool)

  /** ORDER BY created_at, rowid. */
  predicate MsgLess(a: Msg, b: Msg) {
    a.createdAt < b.createdAt || (a.createdAt == b.createdAt && a.rowid < b.rowid)
  }

  /** The order the grouping sorts by; ties keep the order they came in. */
  predicate Older(a: Msg, b: Msg) {
    a.createdAt < b.createdAt
  }

  // ----- the table -----

  predicate HasId(rows: seq<Msg>, id: string) {
    exists i :: 0 <= i < |rows| && rows[i].id == id
  }

  function Deactivate(rows: seq<Msg>, parent: string): (r: seq<Msg>)
    ensures |r| == |rows|
    ensures forall i :: 0 <= i < |rows| ==> r[i] == if rows[i].parent == parent then rows[i].(active := false) else rows[i]
  {
    seq(|rows|, i requires 0 <= i < |rows| => if rows[i].parent == parent then rows[i].(active := false) else rows[i])
  }

  /** SaveMessage: insert as the active child of its parent; a reused id is an error and changes nothing. */
  function SaveMessage(rows: seq<Msg>, id: string, role: string, content: string, createdAt: int, parent: string): seq<Msg> {
    if HasId(rows, id) then rows
    else Deactivate(rows, parent) + [Msg(id, role, content, createdAt, |rows|, parent, true)]
  }

  function IndexOf(rows: seq<Msg>, id: string): (i: nat)
    ensures i <= |rows| && (i < |rows| ==> rows[i].id == id) && (forall j :: 0 <= j < i ==> rows[j].id != id)
  {
    if rows == [] || rows[0].id == id then 0 else 1 + IndexOf(rows[1..], id)
  }

  /** ActivateMessage: the message takes the active slot of its group; an unknown id changes nothing. */
  function ActivateMessage(rows: seq<Msg>, id: string): seq<Msg> {
    var k := IndexOf(rows, id);
    if k == |rows| then rows else
    var off := Deactivate(rows, rows[k].parent);
    off[k := off[k].(active := true)]
  }

  function ListMessages(rows: seq<Msg>): seq<Msg> {
    Sort(rows, MsgLess)
  }

  // ----- what the writes keep -----

  ghost predicate Keyed(rows: seq<Msg>) {
    && (forall i :: 0 <= i < |rows| ==> rows[i].id != "" && rows[i].rowid == i)
    && (forall i, j :: 0 <= i < j < |rows| ==> rows[i].id != rows[j].id)
  }

  /** Row `i` starts at the root, or its parent is a row of lower rank. */
  ghost predicate HangsBelow(rows: seq<Msg>, rank: seq<nat>, i: nat)
    requires i < |rows| == |rank|
  {
    rows[i].parent == "" || exists d :: 0 <= d < |rows| && rows[d].id == rows[i].parent && rank[d] < rank[i]
  }

  ghost predicate Ranked(rows: seq<Msg>, rank: seq<nat>) {
    |rank| == |rows| && forall i :: 0 <= i < |rows| ==> HangsBelow(rows, rank, i)
  }

  /** Every message hangs below the root over finitely many existing parents, in whatever order the rows are stored. */
  ghost predicate Rooted(rows: seq<Msg>) {
    exists rank :: Ranked(rows, rank)
  }

  /** Each group of siblings has exactly one active message. */
  ghost predicate OneActive(rows: seq<Msg>) {
    && (forall i, j :: 0 <= i < |rows| && 0 <= j < |rows| && rows[i].parent == rows[j].parent && rows[i].active && rows[j].active ==> i == j)
    && (forall i :: 0 <= i < |rows| ==> HasActive(rows, rows[i].parent))
  }

  predicate HasActive(rows: seq<Msg>, parent: string) {
    exists j :: 0 <= j < |rows| && rows[j].parent == parent && rows[j].active
  }

  ghost predicate Tree(rows: seq<Msg>) {
    Keyed(rows) && Rooted(rows) && OneActive(rows)
  }

  datatype Op =
    | Save(id: string, role: string, content: string, createdAt: int, parent: string)
    | Activate(id: string)

  /** A save names its parent by an id the conversation holds, or starts at the root. */
  function Apply(rows: seq<Msg>, op: Op): seq<Msg> {
    match op
    case Save(id, role, content, createdAt, parent) =>
      if id != "" && (parent == "" || HasId(rows, parent)) then SaveMessage(rows, id, role, content, createdAt, parent) else rows
    case Activate(id) => ActivateMessage(rows, id)
  }

  function Run(rows: seq<Msg>, ops: seq<Op>): seq<Msg>
    decreases |ops|
  {
    if ops == [] then rows else Run(Apply(rows, ops[0]), ops[1..])
  }

  /** `rows2` starts with the rows of `rows`, up to their active flags. */
  ghost predicate SameShape(rows: seq<Msg>, rows2: seq<Msg>) {
    |rows| <= |rows2| && forall i :: 0 <= i < |rows| ==>
      rows2[i].id == rows[i].id && rows2[i].parent == rows[i].parent && rows2[i].rowid == rows[i].rowid
  }

  lemma ShapeRanked(rows: seq<Msg>, rows2: seq<Msg>, rank: seq<nat>, rank2: seq<nat>)
    requires Ranked(rows, rank) && SameShape(rows, rows2) && |rank2| == |rows2| && rank <= rank2
    requires forall i :: |rows| <= i < |rows2| ==> HangsBelow(rows2, rank2, i)
    ensures Ranked(rows2, rank2)
  {
    forall i | 0 <= i < |rows| ensures HangsBelow(rows2, rank2, i) {
      assert HangsBelow(rows, rank, i);
      if rows[i].parent != "" {
        var d :| 0 <= d < |rows| && rows[d].id == rows[i].parent && rank[d] < rank[i];
        assert rows2[d].id == rows2[i].parent && rank2[d] < rank2[i];
      }
    }
  }

  lemma ShapeRooted(rows: seq<Msg>, rows2: seq<Msg>)
    requires Rooted(rows) && SameShape(rows, rows2) && |rows2| == |rows|
    ensures Rooted(rows2)
  {
    var rank :| Ranked(rows, rank);
    ShapeRanked(rows, rows2, rank, rank);
  }

  /** A new message goes right below its parent. */
  lemma SaveRooted(rows: seq<Msg>, rows2: seq<Msg>, parent: string)
    requires Rooted(rows) && SameShape(rows, rows2) && |rows2| == |rows| + 1 && rows2[|rows|].parent == parent
    requires parent == "" || HasId(rows, parent)
    ensures Rooted(rows2)
  {
    var rank :| Ranked(rows, rank);
    if parent == "" {
      ShapeRanked(rows, rows2, rank, rank + [0]);
    } else {
      var j :| 0 <= j < |rows| && rows[j].id == parent;
      var rank2 := rank + [rank[j] + 1];
      assert rows2[j].id == parent && rank2[j] < rank2[|rows|];
      ShapeRanked(rows, rows2, rank, rank2);
    }
  }

  /** A group whose flags were cleared, with one member then set, has one active member; the others are as before. */
  lemma GroupReset(rows: seq<Msg>, rows2: seq<Msg>, parent: string, k: nat)
    requires OneActive(rows) && SameShape(rows, rows2) && k < |rows2| && rows2[k].parent == parent && rows2[k].active
    requires forall i :: 0 <= i < |rows| && rows[i].parent != parent ==> rows2[i].active == rows[i].active
    requires forall i :: 0 <= i < |rows2| && rows2[i].parent == parent && rows2[i].active ==> i == k
    requires forall i :: |rows| <= i < |rows2| ==> rows2[i].parent == parent
    ensures OneActive(rows2)
  {
  }

  lemma SaveKeeps(rows: seq<Msg>, id: string, role: string, content: string, createdAt: int, parent: string)
    requires Tree(rows) && id != "" && !HasId(rows, id) && (parent == "" || HasId(rows, parent))
    ensures Tree(SaveMessage(rows, id, role, content, createdAt, parent))
  {
    hide OneActive, Rooted;
    var rows2 := SaveMessage(rows, id, role, content, createdAt, parent);
    assert rows2[|rows|] == Msg(id, role, content, createdAt, |rows|, parent, true);
    GroupReset(rows, rows2, parent, |rows|);
    SaveRooted(rows, rows2, parent);
  }

  lemma ShapeKeyed(rows: seq<Msg>, rows2: seq<Msg>)
    requires Keyed(rows) && SameShape(rows, rows2) && |rows2| == |rows|
    ensures Keyed(rows2)
  {
  }

  lemma ActivateEffect(rows: seq<Msg>, id: string, k: nat)
    requires k == IndexOf(rows, id) && k < |rows|
    ensures var rows2 := ActivateMessage(rows, id);
      && |rows2| == |rows| && SameShape(rows, rows2)
      && forall i :: 0 <= i < |rows| ==>
           rows2[i] == rows[i].(active := if rows[i].parent == rows[k].parent then i == k else rows[i].active)
  {
  }

  lemma ActivateKeeps(rows: seq<Msg>, id: string)
    requires Tree(rows)
    ensures Tree(ActivateMessage(rows, id))
  {
    hide OneActive, Rooted, Keyed;
    var k := IndexOf(rows, id);
    if k < |rows| {
      var rows2 := ActivateMessage(rows, id);
      ActivateEffect(rows, id, k);
      ShapeKeyed(rows, rows2);
      GroupReset(rows, rows2, rows[k].parent, k);
      ShapeRooted(rows, rows2);
    }
  }

  /** Whatever is saved and activated, in any order, the conversation stays a tree with one active child per group. */
  lemma {:induction false} RunKeepsTree(rows: seq<Msg>, ops: seq<Op>)
    requires Tree(rows)
    ensures Tree(Run(rows, ops))
    decreases |ops|
  {
    if ops != [] {
      match ops[0] {
        case Save(id, role, content, createdAt, parent) =>
          if id != "" && (parent == "" || HasId(rows, parent)) && !HasId(rows, id) {
            SaveKeeps(rows, id, role, content, createdAt, parent);
          }
        case Activate(id) => ActivateKeeps(rows, id);
      }
      RunKeepsTree(Apply(rows, ops[0]), ops[1..]);
    }
  }

  lemma FindById(rows: seq<Msg>, k: nat)
    requires k < |rows| && Keyed(rows)
    ensures IndexOf(rows, rows[k].id) == k
  {
  }

  /** Switching to a sibling and back leaves the table exactly as it was, whatever was active. */
  lemma SwitchAndBack(rows: seq<Msg>, current: nat, other: nat)
    requires Tree(rows) && current < |rows| && other < |rows|
    requires rows[current].active && rows[other].parent == rows[current].parent
    ensures ActivateMessage(ActivateMessage(rows, rows[other].id), rows[current].id) == rows
  {
    FindById(rows, other);
    FindById(rows, current);
    var rows1 := ActivateMessage(rows, rows[other].id);
    ActivateKeeps(rows, rows[other].id);
    assert rows1[current].id == rows[current].id;
    FindById(rows1, current);
    var rows2 := ActivateMessage(rows1, rows[current].id);
    forall i | 0 <= i < |rows| ensures rows2[i] == rows[i] {
      if rows[i].parent == rows[current].parent && i != current { assert !rows[i].active; }
    }
  }

  // ----- the program -----

  lemma {:induction false} IndexAt(rows: seq<Msg>, id: string, k: nat)
    requires k <= |rows| && (forall j :: 0 <= j < k ==> rows[j].id != id) && (k < |rows| ==> rows[k].id == id)
    ensures IndexOf(rows, id) == k
  {
  }

  /** The messages table of one conversation. */
  class MessageStore {
    var rows: seq<Msg>

    constructor ()
      ensures rows == []
    {
      rows := [];
    }

    /** UPDATE messages SET active = 0 for one group. */
    method ClearActive(parent: string)
      modifies this
      ensures rows == Deactivate(old(rows), parent)
    {
      for i := 0 to |rows|
        invariant |rows| == |old(rows)|
        invariant rows[..i] == Deactivate(old(rows), parent)[..i] && rows[i..] == old(rows)[i..]
      {
        if rows[i].parent == parent {
          rows := rows[i := rows[i].(active := false)];
        }
      }
    }

    method Find(id: string) returns (k: nat)
      ensures k == IndexOf(rows, id)
    {
      for i := 0 to |rows|
        invariant forall j :: 0 <= j < i ==> rows[j].id != id
      {
        if rows[i].id == id {
          IndexAt(rows, id, i);
          return i;
        }
      }
      IndexAt(rows, id, |rows|);
      k := |rows|;
    }

    /** In one transaction: clear the group, insert the message as active; a reused id rolls back. */
    method Save(id: string, role: string, content: string, createdAt: int, parent: string) returns (ok: bool)
      modifies this
      ensures rows == SaveMessage(old(rows), id, role, content, createdAt, parent)
      ensures ok <==> !HasId(old(rows), id)
    {
      var before := rows;
      var k := Find(id);
      ClearActive(parent);
      if k < |before| {
        assert before[k].id == id;
        rows := before;
        return false;
      }
      rows := rows + [Msg(id, role, content, createdAt, |before|, parent, true)];
      ok := true;
    }

    /** In one transaction: clear the message's group, then set it active; an unknown id fails. */
    method Activate(id: string) returns (ok: bool)
      modifies this
      ensures rows == ActivateMessage(old(rows), id)
      ensures ok <==> HasId(old(rows), id)
    {
      var k := Find(id);
      if k == |rows| {
        return false;
      }
      assert rows[k].id == id;
      ClearActive(rows[k].parent);
      rows := rows[k := rows[k].(active := true)];
      ok := true;
    }
  }
}
