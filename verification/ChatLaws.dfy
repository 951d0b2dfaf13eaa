/**
 What a reader of a conversation sees, read off the fields: in which order messages
 stand, which alternative is picked and how it is counted, and that a message just
 saved or chosen is the one shown.
 */
module ChatLaws {
  import opened Ordering
  import opened ChatTree
  import opened ChatBranch

  /** Messages are listed by creation time, and in the order they were stored when that is equal. */
  lemma ListedInOrder(rows: seq<Msg>)
    requires Keyed(rows)
    ensures var list := ListMessages(rows);
      && (forall m :: m in list <==> m in rows)
      && (forall i, j :: 0 <= i < j < |list| ==>
            list[i].createdAt < list[j].createdAt || (list[i].createdAt == list[j].createdAt && list[i].rowid < list[j].rowid))
  {
    hide ListMessages;
    ListingOf(rows);
    var list := ListMessages(rows);
    forall i, j | 0 <= i < j < |list|
      ensures list[i].createdAt < list[j].createdAt || (list[i].createdAt == list[j].createdAt && list[i].rowid < list[j].rowid)
    {
      assert MsgLess(list[i], list[j]);
    }
  }

  /** Of a group the first active message is picked, and the last one when none is active. */
  lemma {:induction false} PickedExactly(group: seq<Msg>)
    requires group != []
    ensures (exists k :: 0 <= k < |group| && group[k].active && PickActive(group) == group[k] && forall j :: 0 <= j < k ==> !group[j].active)
      || ((forall j :: 0 <= j < |group| ==> !group[j].active) && PickActive(group) == group[|group| - 1])
  {
    if exists k :: 0 <= k < |group| && group[k].active {
      var k := FirstActiveOf(group);
      FirstActive(group, k);
    } else {
      NoneActive(group);
    }
  }

  lemma FirstActiveOf(group: seq<Msg>) returns (k: nat)
    requires exists j :: 0 <= j < |group| && group[j].active
    ensures k < |group| && group[k].active && forall j :: 0 <= j < k ==> !group[j].active
  {
    k := 0;
    while !group[k].active
      invariant k < |group| && forall j :: 0 <= j < k ==> !group[j].active
      invariant exists j :: k <= j < |group| && group[j].active
      decreases |group| - k
    {
      k := k + 1;
    }
  }

  // ----- how a message is counted among its alternatives -----

  /** The view counts the alternatives under one parent and says which of them it shows, counting from one. */
  ghost predicate Counted(list: seq<Msg>, v: BranchView) {
    && 1 <= v.index <= v.count == |v.siblings|
    && v.siblings[v.index - 1] == v.msg.id
    && (forall id :: id in v.siblings <==> exists m :: m in list && m.parent == v.msg.parent && m.id == id)
    && (forall i, j :: 0 <= i < j < |v.siblings| ==> v.siblings[i] != v.siblings[j])
  }

  lemma {:induction false} PositionIs(group: seq<Msg>, k: nat)
    requires k < |group| && forall i, j :: 0 <= i < j < |group| ==> group[i].id != group[j].id
    ensures Position(group, group[k].id) == k + 1
    decreases |group|
  {
    if k < |group| - 1 {
      PositionIs(group[..|group| - 1], k);
    }
  }

  lemma ViewCounts(rows: seq<Msg>, list: seq<Msg>, v: BranchView)
    requires Keyed(rows) && list == ListMessages(rows) && Shown(list, v)
    ensures Counted(list, v)
  {
    hide ListMessages, Position, Children, MsgLess, Keyed;
    var group := Children(list, v.msg.parent);
    GroupDistinct(rows, list, v.msg.parent);
    assert v.msg in group;
    var k :| 0 <= k < |group| && group[k] == v.msg;
    PositionIs(group, k);
    forall id ensures id in v.siblings <==> exists m :: m in list && m.parent == v.msg.parent && m.id == id {
      SiblingIds(list, v.msg.parent, id);
    }
  }

  /** The alternatives under one parent are the messages below it, each once. */
  lemma GroupDistinct(rows: seq<Msg>, list: seq<Msg>, parent: string)
    requires Keyed(rows) && list == ListMessages(rows)
    ensures var group := Children(list, parent);
      && (forall m :: m in group <==> m in list && m.parent == parent)
      && (forall i, j :: 0 <= i < j < |group| ==> group[i].id != group[j].id)
    ensures Ascending(list, MsgLess)
  {
    hide ListMessages, Children, MsgLess, Keyed;
    ListingOf(rows);
    ChildrenOf(list, parent);
    var group := Children(list, parent);
    forall i, j | 0 <= i < j < |group| ensures group[i].id != group[j].id {
      assert group[i] in group && group[j] in group;
      assert MsgLess(group[i], group[j]);
      NotBeforeItself(group[i]);
      SameIdSameRow(rows, group[i], group[j]);
    }
  }

  lemma SiblingIds(list: seq<Msg>, parent: string, id: string)
    requires Ascending(list, MsgLess)
    ensures id in Ids(Children(list, parent)) <==> exists m :: m in list && m.parent == parent && m.id == id
  {
    hide Children, MsgLess;
    ChildrenOf(list, parent);
    var group := Children(list, parent);
    if id in Ids(group) {
      var i :| 0 <= i < |group| && Ids(group)[i] == id;
      assert group[i] in group;
    }
    if m :| m in list && m.parent == parent && m.id == id {
      assert m in group;
      var i :| 0 <= i < |group| && group[i] == m;
      assert Ids(group)[i] == id;
    }
  }

  /** In any reachable conversation every message shown is counted right among its alternatives. */
  lemma BranchCounts(rows: seq<Msg>)
    requires Tree(rows)
    ensures var list := ListMessages(rows);
      forall i :: 0 <= i < |ActiveBranch(list)| ==> Counted(list, ActiveBranch(list)[i])
  {
    hide ListMessages, ActiveBranch, Counted, Shown, Linked, Children;
    var list := ListMessages(rows);
    var branch := ActiveBranch(list);
    ActiveBranchIsTranscript(rows);
    TreeKeyed(rows);
    forall i | 0 <= i < |branch| ensures Counted(list, branch[i]) {
      assert Shown(list, branch[i]);
      ViewCounts(rows, list, branch[i]);
    }
  }

  // ----- what was just saved or chosen is shown -----

  /** `rows2` is `rows` with only the group under `parent` changed, where row `x` is now active. */
  ghost predicate GroupTurned(rows: seq<Msg>, rows2: seq<Msg>, parent: string, x: nat) {
    && SameShape(rows, rows2) && x < |rows2| && rows2[x].parent == parent && rows2[x].active
    && (forall i :: 0 <= i < |rows| && rows[i].parent != parent ==> rows2[i].active == rows[i].active)
  }

  /** The transcript as rows: active, each below the one before. */
  lemma ShownRow(rows: seq<Msg>, i: nat)
    requires Tree(rows) && i < |ActiveBranch(ListMessages(rows))|
    ensures var b := ActiveBranch(ListMessages(rows));
      var m := b[i].msg;
      && m.rowid < |rows| && rows[m.rowid] == m && m.active && m.id != ""
      && m.parent == (if i == 0 then "" else b[i - 1].msg.id)
  {
    hide ListMessages, ActiveBranch, Children, Rooted, OneActive;
    ActiveBranchIsTranscript(rows);
    ListingOf(rows);
    var b := ActiveBranch(ListMessages(rows));
    assert Shown(ListMessages(rows), b[i]);
    assert b[i].msg in rows;
  }

  /** Two active rows under one parent are one. */
  lemma OneActiveRow(rows: seq<Msg>, i: nat, j: nat)
    requires OneActive(rows) && i < |rows| && j < |rows| && rows[i].parent == rows[j].parent && rows[i].active && rows[j].active
    ensures i == j
  {
  }

  /** Where the transcript ends nothing hangs below. */
  lemma NothingBelowEnd(rows: seq<Msg>, x: nat)
    requires Tree(rows) && x < |rows|
    ensures var b := ActiveBranch(ListMessages(rows));
      b != [] && rows[x].parent != b[|b| - 1].msg.id
  {
    hide ListMessages, ActiveBranch, Rooted, OneActive, Children;
    ActiveBranchIsTranscript(rows);
    ListingOf(rows);
    var list := ListMessages(rows);
    var b := ActiveBranch(list);
    assert rows[x] in rows && rows[x] in list;
    ChildrenOf(list, b[|b| - 1].msg.id);
    assert rows[x] !in Children(list, b[|b| - 1].msg.id);
  }

  lemma PathIdsDistinct(rows: seq<Msg>, i: nat, j: nat)
    requires Tree(rows) && i < j < |ActiveBranch(ListMessages(rows))|
    ensures var b := ActiveBranch(ListMessages(rows)); b[i].msg.id != b[j].msg.id
  {
    hide ListMessages, ActiveBranch, Tree, IsTranscript, ById;
    var list := ListMessages(rows);
    ActiveBranchIsTranscript(rows);
    TranscriptPath(rows, list, ActiveBranch(list));
    var path := MsgsOf(ActiveBranch(list));
    assert path[i] == ActiveBranch(list)[i].msg && path[j] == ActiveBranch(list)[j].msg;
  }

  /** Up to the changed group both transcripts show the same messages. */
  lemma {:induction false} SamePrefix(rows: seq<Msg>, rows2: seq<Msg>, k: nat, x: nat, i: nat)
    requires Tree(rows) && Tree(rows2) && i <= k < |ActiveBranch(ListMessages(rows))|
    requires GroupTurned(rows, rows2, ActiveBranch(ListMessages(rows))[k].msg.id, x)
    ensures var b, b2 := ActiveBranch(ListMessages(rows)), ActiveBranch(ListMessages(rows2));
      i < |b2| && b2[i].msg.id == b[i].msg.id
    decreases i
  {
    hide ListMessages, ActiveBranch, Tree, OneActive;
    var b, b2 := ActiveBranch(ListMessages(rows)), ActiveBranch(ListMessages(rows2));
    ShownRow(rows, i);
    ShownRow(rows, k);
    TreeKeyed(rows2);
    var m := b[i].msg;
    NothingBelowEnd(rows2, m.rowid);
    if i > 0 {
      SamePrefix(rows, rows2, k, x, i - 1);
      PathIdsDistinct(rows, i - 1, k);
      assert rows2[m.rowid].parent == b2[i - 1].msg.id;
    }
    assert i < |b2|;
    ShownRow(rows2, i);
    assert rows2[m.rowid].active;
    OneActiveRow(rows2, m.rowid, b2[i].msg.rowid);
  }

  /** Below the changed group's parent the new active message is shown. */
  lemma TurnedIsShown(rows: seq<Msg>, rows2: seq<Msg>, k: nat, x: nat)
    requires Tree(rows) && Tree(rows2) && k < |ActiveBranch(ListMessages(rows))|
    requires GroupTurned(rows, rows2, ActiveBranch(ListMessages(rows))[k].msg.id, x)
    ensures var b, b2 := ActiveBranch(ListMessages(rows)), ActiveBranch(ListMessages(rows2));
      && k + 1 < |b2| && b2[k + 1].msg == rows2[x]
      && forall i :: 0 <= i <= k ==> b2[i].msg.id == b[i].msg.id
  {
    hide ListMessages, ActiveBranch, Tree, OneActive;
    var b, b2 := ActiveBranch(ListMessages(rows)), ActiveBranch(ListMessages(rows2));
    forall i | 0 <= i <= k ensures i < |b2| && b2[i].msg.id == b[i].msg.id { SamePrefix(rows, rows2, k, x, i); }
    assert k < |b2|;
    TreeKeyed(rows2);
    NothingBelowEnd(rows2, x);
    ShownRow(rows2, k + 1);
    OneActiveRow(rows2, x, b2[k + 1].msg.rowid);
  }

  /** At the root the new active message opens the transcript. */
  lemma TurnedRootIsShown(rows: seq<Msg>, rows2: seq<Msg>, x: nat)
    requires Tree(rows2) && x < |rows2| && rows2[x].parent == "" && rows2[x].active
    ensures var b2 := ActiveBranch(ListMessages(rows2)); b2 != [] && b2[0].msg == rows2[x]
  {
    hide ListMessages, ActiveBranch, Tree, OneActive;
    TreeKeyed(rows2);
    NothingBelowEnd(rows2, x);
    ShownRow(rows2, 0);
    OneActiveRow(rows2, x, ActiveBranch(ListMessages(rows2))[0].msg.rowid);
  }

  lemma SaveTurns(rows: seq<Msg>, id: string, role: string, content: string, createdAt: int, parent: string)
    requires Tree(rows) && id != "" && !HasId(rows, id) && (parent == "" || HasId(rows, parent))
    ensures var rows2 := SaveMessage(rows, id, role, content, createdAt, parent);
      && |rows2| == |rows| + 1 && Tree(rows2) && GroupTurned(rows, rows2, parent, |rows|)
      && rows2[|rows|] == Msg(id, role, content, createdAt, |rows|, parent, true)
      && forall i :: 0 <= i < |rows| ==> rows2[i].parent == rows[i].parent && rows2[i].content == rows[i].content && rows2[i].role == rows[i].role
  {
    hide Tree, SaveMessage, GroupTurned;
    SaveKeeps(rows, id, role, content, createdAt, parent);
    SaveWrites(rows, id, role, content, createdAt, parent);
  }

  /** What a save writes: the new row, and flags in its group. */
  lemma SaveWrites(rows: seq<Msg>, id: string, role: string, content: string, createdAt: int, parent: string)
    requires !HasId(rows, id)
    ensures var rows2 := SaveMessage(rows, id, role, content, createdAt, parent);
      && |rows2| == |rows| + 1 && GroupTurned(rows, rows2, parent, |rows|)
      && rows2[|rows|] == Msg(id, role, content, createdAt, |rows|, parent, true)
      && forall i :: 0 <= i < |rows| ==> rows2[i] == rows[i].(active := rows2[i].active)
  {
    hide HasId;
    var rows2 := SaveMessage(rows, id, role, content, createdAt, parent);
    assert rows2[|rows|] == Msg(id, role, content, createdAt, |rows|, parent, true);
  }

  /** Nothing hangs below an id the conversation does not hold. */
  lemma NothingBelowNew(rows: seq<Msg>, id: string, i: nat)
    requires Tree(rows) && id != "" && !HasId(rows, id) && i < |rows|
    ensures rows[i].parent != id
  {
    if rows[i].parent == id { var d := ParentRow(rows, i); }
  }

  /**
   A message saved below one of the transcript is the last one shown: the transcript up
   to its parent stays, the new message follows with everything it was saved with, and
   nothing comes after it, whatever was shown there before.
   */
  lemma SavedIsShown(rows: seq<Msg>, id: string, role: string, content: string, createdAt: int, k: nat)
    requires Tree(rows) && k < |ActiveBranch(ListMessages(rows))| && id != "" && !HasId(rows, id)
    ensures var b := ActiveBranch(ListMessages(rows));
      var parent := b[k].msg.id;
      var b2 := ActiveBranch(ListMessages(Apply(rows, Save(id, role, content, createdAt, parent))));
      && |b2| == k + 2 && b2[k + 1].msg == Msg(id, role, content, createdAt, |rows|, parent, true)
      && forall i :: 0 <= i <= k ==> b2[i].msg.id == b[i].msg.id
  {
    hide ListMessages, ActiveBranch, Tree, SaveMessage, GroupTurned;
    var parent := ActiveBranch(ListMessages(rows))[k].msg.id;
    ShownRow(rows, k);
    assert rows[ActiveBranch(ListMessages(rows))[k].msg.rowid].id == parent;
    assert HasId(rows, parent);
    var rows2 := SaveMessage(rows, id, role, content, createdAt, parent);
    SaveTurns(rows, id, role, content, createdAt, parent);
    TurnedIsShown(rows, rows2, k, |rows|);
    EndsWithNew(rows, rows2, id, k + 1);
  }

  /** A first message, or another opening of the conversation, is all that is shown. */
  lemma SavedRootIsShown(rows: seq<Msg>, id: string, role: string, content: string, createdAt: int)
    requires Tree(rows) && id != "" && !HasId(rows, id)
    ensures var b2 := ActiveBranch(ListMessages(Apply(rows, Save(id, role, content, createdAt, ""))));
      |b2| == 1 && b2[0].msg == Msg(id, role, content, createdAt, |rows|, "", true)
  {
    hide ListMessages, ActiveBranch, Tree, SaveMessage, GroupTurned;
    var rows2 := SaveMessage(rows, id, role, content, createdAt, "");
    SaveTurns(rows, id, role, content, createdAt, "");
    TurnedRootIsShown(rows, rows2, |rows|);
    EndsWithNew(rows, rows2, id, 0);
  }

  lemma EndsWithNew(rows: seq<Msg>, rows2: seq<Msg>, id: string, k: nat)
    requires Tree(rows) && Tree(rows2) && id != "" && !HasId(rows, id) && |rows2| == |rows| + 1
    requires forall i :: 0 <= i < |rows| ==> rows2[i].parent == rows[i].parent
    requires rows2[|rows|].parent != id
    requires k < |ActiveBranch(ListMessages(rows2))| && ActiveBranch(ListMessages(rows2))[k].msg.id == id
    ensures |ActiveBranch(ListMessages(rows2))| == k + 1
  {
    hide ListMessages, ActiveBranch, Tree;
    var b2 := ActiveBranch(ListMessages(rows2));
    if k + 1 < |b2| {
      ShownRow(rows2, k + 1);
      var r := b2[k + 1].msg.rowid;
      if r < |rows| { NothingBelowNew(rows, id, r); }
    }
  }

  /** An alternative that is chosen below a shown message is shown there. */
  lemma ActivatedIsShown(rows: seq<Msg>, k: nat, x: nat)
    requires Tree(rows) && k < |ActiveBranch(ListMessages(rows))| && x < |rows|
    requires rows[x].parent == ActiveBranch(ListMessages(rows))[k].msg.id
    ensures var b := ActiveBranch(ListMessages(rows));
      var b2 := ActiveBranch(ListMessages(Apply(rows, Activate(rows[x].id))));
      && k + 1 < |b2| && b2[k + 1].msg == rows[x].(active := true)
      && forall i :: 0 <= i <= k ==> b2[i].msg.id == b[i].msg.id
  {
    hide ListMessages, ActiveBranch, Tree, ActivateMessage;
    TreeKeyed(rows);
    FindById(rows, x);
    ActivateEffect(rows, rows[x].id, x);
    ActivateKeeps(rows, rows[x].id);
    TurnedIsShown(rows, ActivateMessage(rows, rows[x].id), k, x);
  }
}
