/**
 The migration that turned linear transcripts into trees: what it writes, that every
 legacy conversation reads as before, and that it stays readable when extended.
 */
module ChatMigration {
  import opened Ordering
  import opened ChatTree
  import opened ChatBranch

  // ----- linear transcripts become trees -----

  /** The latest row before `m` in (created_at, rowid) order, if any. */
  function Previous(rows: seq<Msg>, m: Msg): (p: seq<Msg>)
    ensures |p| <= 1
  {
    if rows == [] then []
    else
      var best := Previous(rows[1..], m);
      if MsgLess(rows[0], m) && (best == [] || MsgLess(best[0], rows[0])) then [rows[0]] else best
  }

  /** Migration 006: every row becomes the active child of the row before it. */
  function Migrate(rows: seq<Msg>): (r: seq<Msg>)
    ensures |r| == |rows| && forall i :: 0 <= i < |rows| ==> r[i] == MigrateRow(rows, rows[i])
  {
    seq(|rows|, i requires 0 <= i < |rows| => MigrateRow(rows, rows[i]))
  }

  function MigrateRow(rows: seq<Msg>, m: Msg): Msg {
    m.(active := true, parent := if Previous(rows, m) == [] then "" else Previous(rows, m)[0].id)
  }

  /** The UPDATE, row by row, over the rows as they were. */
  method MigrateTable(rows: seq<Msg>) returns (migrated: seq<Msg>)
    ensures migrated == Migrate(rows)
  {
    migrated := [];
    for i := 0 to |rows|
      invariant migrated == Migrate(rows)[..i]
    {
      var before: seq<Msg> := [];
      for j := |rows| downto 0
        invariant before == Previous(rows[j..], rows[i])
      {
        assert rows[j..][0] == rows[j] && rows[j..][1..] == rows[j + 1..];
        if MsgLess(rows[j], rows[i]) && (before == [] || MsgLess(before[0], rows[j])) {
          before := [rows[j]];
        }
      }
      assert rows[0..] == rows;
      migrated := migrated + [rows[i].(active := true, parent := if before == [] then "" else before[0].id)];
    }
  }

  lemma {:induction false} PreviousIsLatest(rows: seq<Msg>, m: Msg)
    requires TotalOn(MsgLess, set x | x in rows)
    ensures Previous(rows, m) == [] <==> forall x :: x in rows ==> !MsgLess(x, m)
    ensures Previous(rows, m) != [] ==>
      var p := Previous(rows, m)[0];
      p in rows && MsgLess(p, m) && (forall x :: x in rows && MsgLess(x, m) ==> x == p || MsgLess(x, p))
  {
    if rows != [] {
      assert rows == [rows[0]] + rows[1..];
      assert forall x :: x in rows[1..] ==> x in (set y | y in rows);
      assert rows[0] in (set y | y in rows);
      PreviousIsLatest(rows[1..], m);
    }
  }

  /** Each message after the first names the one before it; all are active. */
  ghost predicate Chain(list: seq<Msg>) {
    && Ascending(list, MsgLess)
    && (forall k :: 0 <= k < |list| ==> list[k].active && list[k].id != "")
    && (list != [] ==> list[0].parent == "")
    && (forall k :: 0 < k < |list| ==> list[k].parent == list[k - 1].id)
    && (forall i, j :: 0 <= i < j < |list| ==> list[i].id != list[j].id)
  }

  function MigrateEach(rows: seq<Msg>, list: seq<Msg>): (r: seq<Msg>)
    ensures |r| == |list| && forall i :: 0 <= i < |list| ==> r[i] == MigrateRow(rows, list[i])
  {
    seq(|list|, i requires 0 <= i < |list| => MigrateRow(rows, list[i]))
  }

  /** The migrated table lists the same messages in the same order. */
  lemma MigratedListing(rows: seq<Msg>)
    requires Keyed(rows)
    ensures ListMessages(Migrate(rows)) == MigrateEach(rows, ListMessages(rows))
  {
    hide ListMessages, MigrateRow;
    var list := ListMessages(rows);
    var list2 := MigrateEach(rows, list);
    var rows2 := Migrate(rows);
    MigratedKeyed(rows);
    ListingOf(rows);
    ListingOf(rows2);
    var S := set m | m in rows2;
    MsgLessTotal(S);
    MigratedMembers(rows, list);
    forall i, j | 0 <= i < j < |list2| ensures MsgLess(list2[i], list2[j]) {
      MigrateRowOrder(rows, list[i], list[j]);
    }
    EnumerationUnique(ListMessages(rows2), list2, S, MsgLess);
  }

  lemma MigratedKeyed(rows: seq<Msg>)
    requires Keyed(rows)
    ensures Keyed(Migrate(rows))
    ensures forall a, b :: a in Migrate(rows) && b in Migrate(rows) && a.rowid == b.rowid ==> a == b
  {
  }

  lemma MigrateRowOrder(rows: seq<Msg>, a: Msg, b: Msg)
    ensures MsgLess(MigrateRow(rows, a), MigrateRow(rows, b)) == MsgLess(a, b)
  {
  }

  lemma MigratedMembers(rows: seq<Msg>, list: seq<Msg>)
    requires forall m :: m in list <==> m in rows
    ensures forall m :: m in MigrateEach(rows, list) <==> m in Migrate(rows)
  {
    hide MigrateRow;
    var list2, rows2 := MigrateEach(rows, list), Migrate(rows);
    forall m ensures m in list2 <==> m in rows2 {
      if m in list2 {
        var i :| 0 <= i < |list2| && list2[i] == m;
        assert list[i] in list && list[i] in rows;
        var j :| 0 <= j < |rows| && rows[j] == list[i];
        assert rows2[j] == m;
      }
      if m in rows2 {
        var j :| 0 <= j < |rows2| && rows2[j] == m;
        assert rows[j] in rows && rows[j] in list;
        var i :| 0 <= i < |list| && list[i] == rows[j];
        assert list2[i] == m;
      }
    }
  }

  /** In listing order the latest earlier row is the one just before. */
  lemma PreviousInListing(rows: seq<Msg>, list: seq<Msg>, k: nat)
    requires Keyed(rows) && list == ListMessages(rows) && k < |list|
    ensures Previous(rows, list[k]) == if k == 0 then [] else [list[k - 1]]
  {
    hide ListMessages, Previous;
    ListingOf(rows);
    var S := set m | m in rows;
    MsgLessTotal(S);
    PreviousIsLatest(rows, list[k]);
    assert list[k] in list;
    forall x | x in rows && MsgLess(x, list[k]) ensures k > 0 && (x == list[k - 1] || MsgLess(x, list[k - 1])) {
      assert x in list;
      var i :| 0 <= i < |list| && list[i] == x;
      assert forall a, b :: 0 <= a < b < |list| ==> MsgLess(list[a], list[b]);
      assert i < k;
    }
    if k > 0 {
      assert list[k - 1] in list && MsgLess(list[k - 1], list[k]);
    }
  }

  lemma MigratedAt(rows: seq<Msg>, k: nat)
    requires Keyed(rows) && k < |ListMessages(rows)|
    ensures var m := MigrateRow(rows, ListMessages(rows)[k]);
      && m.active && m.id == ListMessages(rows)[k].id && m.id != ""
      && (k == 0 ==> m.parent == "")
      && (k > 0 ==> m.parent == ListMessages(rows)[k - 1].id)
  {
    hide ListMessages, Previous;
    var list := ListMessages(rows);
    ListingOf(rows);
    PreviousInListing(rows, list, k);
    assert list[k] in list && list[k] in rows;
  }

  lemma ListingDistinct(rows: seq<Msg>)
    requires Keyed(rows)
    ensures var list := ListMessages(rows); forall i, j :: 0 <= i < j < |list| ==> list[i].id != list[j].id
  {
    hide ListMessages, MsgLess;
    var list := ListMessages(rows);
    ListingOf(rows);
    forall i, j | 0 <= i < j < |list| ensures list[i].id != list[j].id {
      assert list[i] in list && list[j] in list;
      assert MsgLess(list[i], list[j]);
      SameIdSameRow(rows, list[i], list[j]);
      NotBeforeItself(list[i]);
    }
  }

  lemma MigratedChain(rows: seq<Msg>)
    requires Keyed(rows)
    ensures Chain(ListMessages(Migrate(rows)))
  {
    hide ListMessages, MigrateRow, MsgLess;
    var list := ListMessages(rows);
    var list2 := ListMessages(Migrate(rows));
    MigratedListing(rows);
    MigratedKeyed(rows);
    ListingOf(Migrate(rows));
    ListingDistinct(Migrate(rows));
    forall k | 0 <= k < |list2| ensures list2[k].active && list2[k].id != "" && list2[k].id == list[k].id {
      MigratedAt(rows, k);
    }
    if list2 != [] { MigratedAt(rows, 0); }
    forall k | 0 < k < |list2| ensures list2[k].parent == list2[k - 1].id { MigratedAt(rows, k); }
  }

  /** The parent of the k-th message of a chain, read off the list. */
  ghost predicate Precedes(list: seq<Msg>, parent: string, k: nat)
    requires k <= |list|
  {
    (k == 0 ==> parent == "") && (k > 0 ==> parent == list[k - 1].id)
  }

  /** In a chain only one message follows a given one. */
  lemma ChainParent(list: seq<Msg>, i: nat, k: nat)
    requires Chain(list) && i < |list| && k <= |list|
    ensures Precedes(list, list[i].parent, k) <==> i == k
  {
    if i > 0 {
      assert list[i].parent == list[i - 1].id;
    }
  }

  /** In a chain a message has exactly the next one as its child. */
  lemma ChainChildren(list: seq<Msg>, k: nat, parent: string)
    requires Chain(list) && k <= |list| && Precedes(list, parent, k)
    ensures k < |list| ==> Children(list, parent) == [list[k]]
    ensures k == |list| ==> Children(list, parent) == []
  {
    hide Children;
    ChildrenOf(list, parent);
    var group := Children(list, parent);
    forall m | m in group ensures k < |list| && m == list[k] {
      var i :| 0 <= i < |list| && list[i] == m;
      ChainParent(list, i, k);
    }
    if k < |list| {
      ChainParent(list, k, k);
      assert list[k].parent == parent;
      assert list[k] in group;
    }
    AtMostOne(group);
    assert group != [] ==> group == [group[0]] && group[0] in group;
  }

  lemma AtMostOne(group: seq<Msg>)
    requires Ascending(group, MsgLess) && forall a, b :: a in group && b in group ==> a == b
    ensures |group| <= 1
  {
    if |group| > 1 {
      NotBeforeItself(group[0]);
      SameFirstTwo(group);
    }
  }

  lemma SameFirstTwo(group: seq<Msg>)
    requires |group| > 1 && forall a, b :: a in group && b in group ==> a == b
    ensures group[0] == group[1]
  {
    assert group[0] in group && group[1] in group;
  }

  function OneOfOne(m: Msg): BranchView {
    BranchView(m, 1, 1, [m.id])
  }

  function AllOneOfOne(list: seq<Msg>): (r: seq<BranchView>)
    ensures |r| == |list| && forall i :: 0 <= i < |list| ==> r[i] == OneOfOne(list[i])
  {
    seq(|list|, i requires 0 <= i < |list| => OneOfOne(list[i]))
  }

  lemma ChainDistinct(list: seq<Msg>, k: nat)
    requires Chain(list) && k < |list|
    ensures forall i :: k < i < |list| ==> list[i].id != list[k].id
  {
  }

  lemma OnlyChild(m: Msg)
    ensures PickActive([m]) == m && ViewOf([m], m) == OneOfOne(m)
  {
  }

  lemma {:induction false} WalkChain(list: seq<Msg>, k: nat, parent: string, unvisited: set<string>)
    requires Chain(list) && k <= |list| && Precedes(list, parent, k)
    requires forall i :: k <= i < |list| ==> list[i].id in unvisited
    ensures WalkFrom(list, parent, unvisited) == AllOneOfOne(list[k..])
    decreases |list| - k
  {
    hide Chain, Children, PickActive, ViewOf;
    ChainChildren(list, k, parent);
    if k < |list| {
      OnlyChild(list[k]);
      ChainDistinct(list, k);
      WalkChain(list, k + 1, list[k].id, unvisited - {list[k].id});
      assert list[k..] == [list[k]] + list[k + 1..];
      assert AllOneOfOne(list[k..]) == [OneOfOne(list[k])] + AllOneOfOne(list[k + 1..]);
    }
  }

  /** After the migration every legacy conversation reads exactly as before, each message one of one. */
  lemma MigrationPreservesTranscript(rows: seq<Msg>)
    requires Keyed(rows)
    ensures ActiveBranch(ListMessages(Migrate(rows))) == AllOneOfOne(ListMessages(Migrate(rows)))
    ensures ListMessages(Migrate(rows)) == MigrateEach(rows, ListMessages(rows))
  {
    hide ListMessages, Children;
    var list := ListMessages(Migrate(rows));
    MigratedChain(rows);
    MigratedListing(rows);
    forall i | 0 <= i < |list| ensures list[i].id in IdSet(list) { assert list[i] in list; }
    WalkChain(list, 0, "", IdSet(list));
    assert list[0..] == list;
  }

  // ----- migrated conversations, read and extended -----

  /** The position of each row in the listing. */
  function Positions(rows: seq<Msg>, list: seq<Msg>): (rank: seq<nat>)
    ensures |rank| == |rows| && forall i :: 0 <= i < |rows| ==> rank[i] == IndexOf(list, rows[i].id)
  {
    seq(|rows|, i requires 0 <= i < |rows| => IndexOf(list, rows[i].id))
  }

  lemma PositionOf(list: seq<Msg>, k: nat)
    requires Chain(list) && k < |list|
    ensures IndexOf(list, list[k].id) == k
  {
  }

  /** Row `i` of a table whose listing is a chain stands at one place of it, right after its parent. */
  lemma ChainPlace(rows: seq<Msg>, list: seq<Msg>, i: nat) returns (k: nat)
    requires Keyed(rows) && list == ListMessages(rows) && Chain(list) && i < |rows|
    ensures k < |list| && list[k] == rows[i] && IndexOf(list, rows[i].id) == k
    ensures k == 0 ==> rows[i].parent == ""
    ensures k > 0 ==> rows[i].parent == list[k - 1].id && list[k - 1] in rows && rows[i].parent != ""
  {
    hide ListMessages, MsgLess;
    ListingOf(rows);
    assert rows[i] in rows && rows[i] in list;
    k :| 0 <= k < |list| && list[k] == rows[i];
    PositionOf(list, k);
    if k > 0 { assert list[k - 1] in list; }
  }

  /** A conversation whose listing is a chain of active messages is a tree, however its rows are stored. */
  lemma ChainIsTree(rows: seq<Msg>)
    requires Keyed(rows) && Chain(ListMessages(rows))
    ensures Tree(rows)
  {
    hide ListMessages, Chain;
    var list := ListMessages(rows);
    var rank := Positions(rows, list);
    forall i | 0 <= i < |rows| ensures HangsBelow(rows, rank, i) && rows[i].active {
      var k := ChainPlace(rows, list, i);
      ChainActive(list, k);
      if k > 0 {
        var d :| 0 <= d < |rows| && rows[d] == list[k - 1];
        PositionOf(list, k - 1);
        assert rank[d] == k - 1;
      }
    }
    assert Ranked(rows, rank);
    forall i, j | 0 <= i < |rows| && 0 <= j < |rows| && rows[i].parent == rows[j].parent ensures i == j {
      SameParentSameRow(rows, list, i, j);
    }
    assert forall i :: 0 <= i < |rows| ==> HasActive(rows, rows[i].parent);
  }

  lemma ChainActive(list: seq<Msg>, k: nat)
    requires Chain(list) && k < |list|
    ensures list[k].active
  {
  }

  lemma SameParentSameRow(rows: seq<Msg>, list: seq<Msg>, i: nat, j: nat)
    requires Keyed(rows) && list == ListMessages(rows) && Chain(list) && i < |rows| && j < |rows|
    requires rows[i].parent == rows[j].parent
    ensures i == j
  {
    hide ListMessages, Chain;
    var k := ChainPlace(rows, list, i);
    var q := ChainPlace(rows, list, j);
    if k > 0 && q > 0 {
      PositionOf(list, k - 1);
      PositionOf(list, q - 1);
    }
    assert k == q;
  }

  /**
   A legacy conversation after the migration, extended by any saves and activations:
   it stays a tree, its visible transcript is a root-to-leaf path along active
   children, and the transcript through its last message is the visible one.
   */
  lemma MigratedStaysReadable(rows: seq<Msg>, ops: seq<Op>)
    requires Keyed(rows)
    ensures var rows2 := Run(Migrate(rows), ops);
      var branch := ActiveBranch(ListMessages(rows2));
      && Tree(rows2) && IsTranscript(ListMessages(rows2), branch, "")
      && (rows2 != [] ==> branch != [] && BranchThrough(ListMessages(rows2), branch[|branch| - 1].msg.id) == branch)
  {
    hide Tree, Chain, ListMessages, ActiveBranch, IsTranscript, BranchThrough, Run, Migrate;
    MigratedChain(rows);
    MigratedKeyed(rows);
    ChainIsTree(Migrate(rows));
    RunKeepsTree(Migrate(rows), ops);
    var rows2 := Run(Migrate(rows), ops);
    ActiveBranchIsTranscript(rows2);
    if rows2 != [] { BranchThroughLast(rows2); }
  }
}
