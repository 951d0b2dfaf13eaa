/**
 Reading a transcript out of a conversation tree: the walk from the root along
 active children, and the walk from a message back to the root.
 */
module ChatBranch {
  import opened Ordering
  import opened ChatTree

  /** One message of a transcript with its place among its siblings. */
  datatype BranchView = BranchView(msg: Msg, index: int, count: nat, siblings: seq<string>)

  function WithParent(list: seq<Msg>, parent: string): seq<Msg> {
    Filter(list, (m: Msg) => m.parent == parent)
  }

  /** The children of a message, oldest first. */
  function Children(list: seq<Msg>, parent: string): seq<Msg> {
    Sort(WithParent(list, parent), Older)
  }

  function Ids(list: seq<Msg>): (r: seq<string>)
    ensures |r| == |list| && forall i :: 0 <= i < |list| ==> r[i] == list[i].id
  {
    seq(|list|, i requires 0 <= i < |list| => list[i].id)
  }

  function IdSet(list: seq<Msg>): set<string> {
    set m | m in list :: m.id
  }

  /** The first active message of a group, or the newest when none is flagged. */
  function PickActive(group: seq<Msg>): (m: Msg)
    requires group != []
    ensures m in group
  {
    if group[0].active || |group| == 1 then group[0]
    else if exists i :: 0 <= i < |group[1..]| && group[1..][i].active then PickActive(group[1..])
    else group[|group| - 1]
  }

  /** One more than the position of the last sibling with this id; zero when there is none. */
  function Position(group: seq<Msg>, id: string): (k: int)
    ensures 0 <= k <= |group| && (k > 0 ==> group[k - 1].id == id)
    ensures forall i :: k <= i < |group| ==> group[i].id != id
  {
    if group == [] then 0 else if group[|group| - 1].id == id then |group| else Position(group[..|group| - 1], id)
  }

  function ViewOf(group: seq<Msg>, m: Msg): BranchView {
    BranchView(m, Position(group, m.id), |group|, Ids(group))
  }

  /** The walk along active children, stopping at a message already visited. */
  function WalkFrom(list: seq<Msg>, parent: string, unvisited: set<string>): seq<BranchView>
    decreases unvisited
  {
    var group := Children(list, parent);
    if group == [] then [] else
    var current := PickActive(group);
    if current.id !in unvisited then [] else
    [ViewOf(group, current)] + WalkFrom(list, current.id, unvisited - {current.id})
  }

  function ActiveBranch(list: seq<Msg>): seq<BranchView> {
    WalkFrom(list, "", IdSet(list))
  }

  /** Ancestors of a message, itself first, stopping at one already seen. */
  function Ancestors(byId: map<string, Msg>, id: string, unvisited: set<string>): seq<Msg>
    decreases unvisited
  {
    if id == "" || id !in byId || id !in unvisited then []
    else [byId[id]] + Ancestors(byId, byId[id].parent, unvisited - {id})
  }

  /** Rows by id; of rows sharing one the last counts. */
  function ById(list: seq<Msg>): map<string, Msg> {
    if list == [] then map[] else ById(list[..|list| - 1])[list[|list| - 1].id := list[|list| - 1]]
  }

  function Reversed(s: seq<Msg>): seq<Msg> {
    if s == [] then [] else Reversed(s[1..]) + [s[0]]
  }

  function Views(list: seq<Msg>, path: seq<Msg>): (r: seq<BranchView>)
    ensures |r| == |path| && forall i :: 0 <= i < |path| ==> r[i] == ViewOf(Children(list, path[i].parent), path[i])
  {
    seq(|path|, i requires 0 <= i < |path| => ViewOf(Children(list, path[i].parent), path[i]))
  }

  function BranchThrough(list: seq<Msg>, id: string): seq<BranchView> {
    Views(list, Reversed(Ancestors(ById(list), id, ById(list).Keys)))
  }

  // ----- the listing of a tree -----

  lemma MsgLessTotal(S: set<Msg>)
    requires forall a, b :: a in S && b in S && a.rowid == b.rowid ==> a == b
    ensures TotalOn(MsgLess, S)
  {
  }

  /** A group already in creation order is left as it is by the stable sort. */
  lemma {:induction false} SortKeepsSorted(s: seq<Msg>)
    requires InCreationOrder(s)
    ensures Sort(s, Older) == s
  {
    if s != [] {
      SortKeepsSorted(s[1..]);
      assert s == [s[0]] + s[1..];
    }
  }

  lemma ListingOf(rows: seq<Msg>)
    requires Keyed(rows)
    ensures Ascending(ListMessages(rows), MsgLess)
    ensures forall m :: m in ListMessages(rows) <==> m in rows
  {
    var S := set m | m in rows;
    assert Distinct(rows);
    MsgLessTotal(S);
    SortEnumerates(rows, S, MsgLess);
  }

  lemma ChildrenOf(list: seq<Msg>, parent: string)
    requires Ascending(list, MsgLess)
    ensures Children(list, parent) == WithParent(list, parent)
    ensures Ascending(Children(list, parent), MsgLess)
    ensures forall m :: m in Children(list, parent) <==> m in list && m.parent == parent
  {
    var keep := (m: Msg) => m.parent == parent;
    FilterAscending(list, keep, MsgLess);
    SortKeepsSorted(Filter(list, keep));
    forall m ensures m in Filter(list, keep) <==> m in list && m.parent == parent { FilterMembers(list, keep, m); }
  }

  lemma {:induction false} PicksTheActive(group: seq<Msg>, k: nat)
    requires k < |group| && group[k].active
    requires forall i :: 0 <= i < |group| && group[i].active ==> i == k
    ensures PickActive(group) == group[k]
  {
    if k > 0 {
      assert group[1..][k - 1].active;
      PicksTheActive(group[1..], k - 1);
    }
  }

  // ----- a transcript -----

  /** Consecutive messages are parent and child. */
  ghost predicate Linked(branch: seq<BranchView>, parent: string) {
    && (branch != [] ==> branch[0].msg.parent == parent)
    && (forall i :: 0 < i < |branch| ==> branch[i].msg.parent == branch[i - 1].msg.id)
  }

  /** An active message of the list, shown with its place among its siblings. */
  ghost predicate Shown(list: seq<Msg>, v: BranchView) {
    v.msg in list && v.msg.active && v == ViewOf(Children(list, v.msg.parent), v.msg)
  }

  /** A path from below `parent` to a leaf along active children. */
  ghost predicate IsTranscript(list: seq<Msg>, branch: seq<BranchView>, parent: string) {
    && Linked(branch, parent)
    && (forall i :: 0 <= i < |branch| ==> Shown(list, branch[i]))
    && Children(list, if branch == [] then parent else branch[|branch| - 1].msg.id) == []
  }

  /** A group in listing order whose members are rows has its active row in exactly one place. */
  lemma OnlyActive(rows: seq<Msg>, group: seq<Msg>, parent: string, j: nat, k: nat)
    requires OneActive(rows) && Ascending(group, MsgLess)
    requires forall m :: m in group ==> m in rows && m.parent == parent
    requires j < |rows| && rows[j].parent == parent && rows[j].active && k < |group| && group[k] == rows[j]
    ensures forall q :: 0 <= q < |group| && group[q].active ==> q == k
  {
  }

  /** The active child of a group with children. */
  lemma ActiveChild(rows: seq<Msg>, list: seq<Msg>, parent: string)
    requires Tree(rows) && list == ListMessages(rows) && Children(list, parent) != []
    ensures var current := PickActive(Children(list, parent));
      && current in list && current.active && current.parent == parent
      && current.rowid < |rows| && rows[current.rowid] == current
  {
    hide Children, ListMessages, Rooted, PickActive, OneActive, MsgLess;
    ListingOf(rows);
    ChildrenOf(list, parent);
    var group := Children(list, parent);
    assert group[0] in group && group[0] in rows;
    var j := ActiveSibling(rows, group[0]);
    assert rows[j] in rows && rows[j] in group;
    var k :| 0 <= k < |group| && group[k] == rows[j];
    OnlyActive(rows, group, parent, j, k);
    PicksTheActive(group, k);
  }

  lemma ActiveSibling(rows: seq<Msg>, m: Msg) returns (j: nat)
    requires OneActive(rows) && m in rows
    ensures j < |rows| && rows[j].parent == m.parent && rows[j].active
  {
    var i :| 0 <= i < |rows| && rows[i] == m;
    assert HasActive(rows, rows[i].parent);
    j :| 0 <= j < |rows| && rows[j].parent == m.parent && rows[j].active;
  }

  lemma ParentIsAbove(rows: seq<Msg>, rank: seq<nat>, j: nat, d: nat)
    requires Keyed(rows) && Ranked(rows, rank) && j < |rows| && d < |rows| && rows[d].id == rows[j].parent
    ensures rank[d] < rank[j]
  {
    assert HangsBelow(rows, rank, j);
  }

  /** The walk never meets a visited message: it only ever goes down the ranks. */
  lemma {:induction false} WalkIsTranscript(rows: seq<Msg>, rank: seq<nat>, list: seq<Msg>, parent: string, at: int, unvisited: set<string>)
    requires Tree(rows) && Ranked(rows, rank) && list == ListMessages(rows)
    requires parent == "" || (0 <= at < |rows| && rows[at].id == parent)
    requires forall i :: 0 <= i < |rows| && (parent == "" || rank[at] < rank[i]) ==> rows[i].id in unvisited
    ensures IsTranscript(list, WalkFrom(list, parent, unvisited), parent)
    decreases unvisited
  {
    hide Tree, IsTranscript, ListMessages, Children, PickActive, Ranked;
    NothingBelow(list, parent);
    var group := Children(list, parent);
    if group != [] {
      ActiveChild(rows, list, parent);
      var current := PickActive(group);
      TreeKeyed(rows);
      if parent != "" { ParentIsAbove(rows, rank, current.rowid, at); }
      assert current.id in unvisited;
      WalkIsTranscript(rows, rank, list, current.id, current.rowid, unvisited - {current.id});
      var rest := WalkFrom(list, current.id, unvisited - {current.id});
      ExtendTranscript(list, parent, current, rest);
    }
  }

  lemma TreeKeyed(rows: seq<Msg>)
    requires Tree(rows)
    ensures Keyed(rows) && Rooted(rows) && OneActive(rows)
  {
  }

  lemma NothingBelow(list: seq<Msg>, parent: string)
    ensures Children(list, parent) == [] ==> IsTranscript(list, [], parent)
  {
  }

  lemma ViewShows(group: seq<Msg>, m: Msg)
    ensures ViewOf(group, m).msg == m
  {
  }

  lemma ExtendTranscript(list: seq<Msg>, parent: string, current: Msg, rest: seq<BranchView>)
    requires current in list && current.active && current.parent == parent && IsTranscript(list, rest, current.id)
    ensures IsTranscript(list, [ViewOf(Children(list, parent), current)] + rest, parent)
  {
  }

  /** In any reachable conversation the visible transcript is the root-to-leaf path along active children. */
  lemma ActiveBranchIsTranscript(rows: seq<Msg>)
    requires Tree(rows)
    ensures IsTranscript(ListMessages(rows), ActiveBranch(ListMessages(rows)), "")
    ensures rows != [] ==> ActiveBranch(ListMessages(rows)) != []
  {
    hide ListMessages, Children, IsTranscript;
    var list := ListMessages(rows);
    ListingOf(rows);
    forall i | 0 <= i < |rows| ensures rows[i].id in IdSet(list) {
      assert rows[i] in rows;
    }
    var rank :| Ranked(rows, rank);
    WalkIsTranscript(rows, rank, list, "", -1, IdSet(list));
    if rows != [] {
      RootExists(rows, list);
    }
  }

  /** Following parents from any row ends at a root. */
  lemma {:induction false} RootAbove(rows: seq<Msg>, rank: seq<nat>, i: nat) returns (r: nat)
    requires Ranked(rows, rank) && i < |rows|
    ensures r < |rows| && rows[r].parent == ""
    decreases rank[i]
  {
    r := i;
    assert HangsBelow(rows, rank, i);
    if rows[i].parent != "" {
      var d :| 0 <= d < |rows| && rows[d].id == rows[i].parent && rank[d] < rank[i];
      r := RootAbove(rows, rank, d);
    }
  }

  lemma RootExists(rows: seq<Msg>, list: seq<Msg>)
    requires Tree(rows) && rows != [] && list == ListMessages(rows)
    ensures ActiveBranch(list) != []
  {
    hide ListMessages, Children, Ranked;
    ListingOf(rows);
    ChildrenOf(list, "");
    var rank :| Ranked(rows, rank);
    var r := RootAbove(rows, rank, 0);
    assert rows[r] in rows && rows[r] in Children(list, "");
    ActiveChild(rows, list, "");
    var current := PickActive(Children(list, ""));
    assert current in list;
  }

  // ----- back from the last message -----

  lemma {:induction false} ByIdFinds(list: seq<Msg>, k: nat)
    requires k < |list| && forall i, j :: 0 <= i < j < |list| ==> list[i].id != list[j].id
    ensures list[k].id in ById(list) && ById(list)[list[k].id] == list[k]
    decreases |list|
  {
    if k < |list| - 1 {
      ByIdFinds(list[..|list| - 1], k);
    }
  }

  function MsgsOf(branch: seq<BranchView>): (r: seq<Msg>)
    ensures |r| == |branch| && forall i :: 0 <= i < |branch| ==> r[i] == branch[i].msg
  {
    seq(|branch|, i requires 0 <= i < |branch| => branch[i].msg)
  }

  lemma {:induction false} ReversedPlus(s: seq<Msg>, x: Msg)
    ensures Reversed([x] + s) == Reversed(s) + [x]
  {
  }

  /** From the k-th message of a path the ancestor walk goes back exactly over the path. */
  lemma {:induction false} AncestorsRetrace(byId: map<string, Msg>, path: seq<Msg>, k: nat, unvisited: set<string>)
    requires k < |path| && path[0].parent == ""
    requires forall i :: 0 < i <= k ==> path[i].parent == path[i - 1].id
    requires forall i :: 0 <= i <= k ==> path[i].id != "" && path[i].id in unvisited && path[i].id in byId && byId[path[i].id] == path[i]
    requires forall i, j :: 0 <= i < j <= k ==> path[i].id != path[j].id
    ensures Reversed(Ancestors(byId, path[k].id, unvisited)) == path[..k + 1]
    decreases k
  {
    var rest := Ancestors(byId, path[k].parent, unvisited - {path[k].id});
    assert Ancestors(byId, path[k].id, unvisited) == [path[k]] + rest;
    ReversedPlus(rest, path[k]);
    if k == 0 {
      assert rest == [];
      assert path[..1] == [path[0]];
    } else {
      AncestorsRetrace(byId, path, k - 1, unvisited - {path[k].id});
      assert path[..k + 1] == path[..k] + [path[k]];
    }
  }

  /** Messages of a linked path have ever higher ranks, so they are distinct. */
  lemma {:induction false} PathDescends(rows: seq<Msg>, rank: seq<nat>, path: seq<Msg>, i: nat, j: nat)
    requires Keyed(rows) && Ranked(rows, rank) && i < j < |path|
    requires forall q :: 0 <= q < |path| ==> path[q] in rows
    requires forall q :: 0 < q < |path| ==> path[q].parent == path[q - 1].id
    ensures path[i].rowid < |rows| && path[j].rowid < |rows| && rank[path[i].rowid] < rank[path[j].rowid]
    decreases j
  {
    hide Ranked;
    assert path[i] in rows && path[j] in rows && path[j - 1] in rows;
    RankLength(rows, rank);
    ParentIsAbove(rows, rank, path[j].rowid, path[j - 1].rowid);
    if i < j - 1 { PathDescends(rows, rank, path, i, j - 1); }
  }

  lemma RankLength(rows: seq<Msg>, rank: seq<nat>)
    requires Ranked(rows, rank)
    ensures |rank| == |rows|
  {
  }

  lemma RankOf(rows: seq<Msg>) returns (rank: seq<nat>)
    requires Rooted(rows)
    ensures Ranked(rows, rank)
  {
    rank :| Ranked(rows, rank);
  }

  /** The messages of a transcript of the whole conversation can be found by id, and are distinct. */
  lemma TranscriptPath(rows: seq<Msg>, list: seq<Msg>, branch: seq<BranchView>)
    requires Tree(rows) && list == ListMessages(rows) && IsTranscript(list, branch, "")
    ensures var path := MsgsOf(branch);
      && (forall i :: 0 <= i < |path| ==> path[i].id != "" && path[i].id in ById(list) && ById(list)[path[i].id] == path[i])
      && (forall i, j :: 0 <= i < j < |path| ==> path[i].id != path[j].id)
  {
    hide ListMessages, Children, ViewOf, Rooted, OneActive, Keyed, ById, MsgLess;
    ListingOf(rows);
    var path := MsgsOf(branch);
    assert forall i :: 0 <= i < |path| ==> path[i] in rows by {
      assert forall i :: 0 <= i < |branch| ==> Shown(list, branch[i]);
    }
    forall i | 0 <= i < |path| ensures path[i].id != "" && path[i].id in ById(list) && ById(list)[path[i].id] == path[i] {
      ListedById(rows, list, path[i]);
    }
    var rank := RankOf(rows);
    forall i, j | 0 <= i < j < |path| ensures path[i].id != path[j].id {
      PathDescends(rows, rank, path, i, j);
      SameIdSameRow(rows, path[i], path[j]);
    }
  }

  /**
   Asking for the transcript through its own last message gives back the visible
   transcript, view for view.
   */
  lemma BranchThroughLast(rows: seq<Msg>)
    requires Tree(rows) && rows != []
    ensures var list := ListMessages(rows);
      var branch := ActiveBranch(list);
      branch != [] && BranchThrough(list, branch[|branch| - 1].msg.id) == branch
  {
    hide ListMessages, Children, ActiveBranch, ViewOf, Tree, ById, Ancestors, Reversed;
    var list := ListMessages(rows);
    var branch := ActiveBranch(list);
    ActiveBranchIsTranscript(rows);
    var path := MsgsOf(branch);
    TranscriptPath(rows, list, branch);
    AncestorsRetrace(ById(list), path, |branch| - 1, ById(list).Keys);
    assert path[..|branch|] == path;
    assert forall i :: 0 <= i < |branch| ==> Shown(list, branch[i]);
    assert Views(list, path) == branch;
  }

  lemma SameIdSameRow(rows: seq<Msg>, a: Msg, b: Msg)
    requires Keyed(rows) && a in rows && b in rows
    ensures a.id == b.id ==> a == b
  {
  }

  lemma ListedById(rows: seq<Msg>, list: seq<Msg>, m: Msg)
    requires Keyed(rows) && list == ListMessages(rows) && m in rows
    ensures m.id != "" && m.id in ById(list) && ById(list)[m.id] == m
  {
    hide ListMessages, MsgLess;
    ListingOf(rows);
    assert m in list;
    var k :| 0 <= k < |list| && list[k] == m;
    forall i, j | 0 <= i < j < |list| ensures list[i].id != list[j].id {
      assert list[i] in list && list[j] in list;
      assert MsgLess(list[i], list[j]);
      SameIdSameRow(rows, list[i], list[j]);
      NotBeforeItself(list[i]);
    }
    ByIdFinds(list, k);
  }

  lemma NotBeforeItself(m: Msg)
    ensures !MsgLess(m, m)
  {
  }

  // ----- the program -----

  function Lookup(byParent: map<string, seq<Msg>>, parent: string): seq<Msg> {
    if parent in byParent then byParent[parent] else []
  }

  lemma WithParentPlus(msgs: seq<Msg>, i: nat, p: string)
    requires i < |msgs|
    ensures WithParent(msgs[..i + 1], p) == WithParent(msgs[..i], p) + (if msgs[i].parent == p then [msgs[i]] else [])
  {
    assert msgs[..i + 1] == msgs[..i] + [msgs[i]];
    FilterPlus(msgs[..i], msgs[i], (m: Msg) => m.parent == p);
  }

  method GroupByParent(msgs: seq<Msg>) returns (byParent: map<string, seq<Msg>>)
    ensures forall p :: Lookup(byParent, p) == WithParent(msgs, p)
    ensures forall p :: p in byParent ==> byParent[p] != []
  {
    byParent := map[];
    for i := 0 to |msgs|
      invariant forall p :: Lookup(byParent, p) == WithParent(msgs[..i], p)
      invariant forall p :: p in byParent ==> byParent[p] != []
    {
      hide WithParent;
      var m := msgs[i];
      forall p ensures WithParent(msgs[..i + 1], p) == WithParent(msgs[..i], p) + (if m.parent == p then [m] else []) {
        WithParentPlus(msgs, i, p);
      }
      ghost var before := byParent;
      byParent := byParent[m.parent := Lookup(byParent, m.parent) + [m]];
      forall p ensures Lookup(byParent, p) == WithParent(msgs[..i + 1], p) {
        assert Lookup(before, p) == WithParent(msgs[..i], p);
      }
    }
    assert msgs[..|msgs|] == msgs;
  }

  /** Groups messages by parent in list order, then sorts each group by creation time. */
  method ChildrenByParent(msgs: seq<Msg>) returns (byParent: map<string, seq<Msg>>)
    ensures forall p :: Lookup(byParent, p) == Children(msgs, p)
    ensures forall p :: p in byParent ==> WithParent(msgs, p) != []
  {
    var unsorted := GroupByParent(msgs);
    byParent := unsorted;
    var left := byParent.Keys;
    while left != {}
      invariant byParent.Keys == unsorted.Keys && left <= unsorted.Keys
      invariant forall p :: p in unsorted ==> byParent[p] == if p in left then unsorted[p] else Sort(unsorted[p], Older)
      decreases left
    {
      var p :| p in left;
      byParent := byParent[p := Sort(byParent[p], Older)];
      left := left - {p};
    }
    hide WithParent, Sort;
    forall p ensures Lookup(byParent, p) == Children(msgs, p) {
      assert Lookup(unsorted, p) == WithParent(msgs, p);
      SortNothing();
    }
  }

  lemma SortNothing()
    ensures Sort([], Older) == []
  {
  }

  method PickActiveLoop(group: seq<Msg>) returns (m: Msg)
    requires group != []
    ensures m == PickActive(group)
  {
    for i := 0 to |group|
      invariant forall j :: 0 <= j < i ==> !group[j].active
    {
      if group[i].active {
        FirstActive(group, i);
        return group[i];
      }
    }
    NoneActive(group);
    m := group[|group| - 1];
  }

  lemma {:induction false} FirstActive(group: seq<Msg>, k: nat)
    requires k < |group| && group[k].active && forall j :: 0 <= j < k ==> !group[j].active
    ensures PickActive(group) == group[k]
  {
    if k > 0 {
      assert group[1..][k - 1].active;
      FirstActive(group[1..], k - 1);
    }
  }

  lemma NoneActive(group: seq<Msg>)
    requires group != [] && forall j :: 0 <= j < |group| ==> !group[j].active
    ensures PickActive(group) == group[|group| - 1]
  {
  }

  method DescribeView(group: seq<Msg>, current: Msg) returns (v: BranchView)
    ensures v == ViewOf(group, current)
  {
    var siblings: seq<string> := [];
    var index := 0;
    for i := 0 to |group|
      invariant siblings == Ids(group[..i])
      invariant index == Position(group[..i], current.id)
    {
      assert group[..i + 1][..i] == group[..i];
      siblings := siblings + [group[i].id];
      if group[i].id == current.id {
        index := i + 1;
      }
    }
    assert group[..|group|] == group;
    v := BranchView(current, index, |group|, siblings);
  }

  /** No message names a parent that is missing from the list. */
  ghost predicate NoOrphans(msgs: seq<Msg>) {
    forall m :: m in msgs ==> m.parent == "" || m.parent in IdSet(msgs)
  }

  ghost predicate AllListed(byParent: map<string, seq<Msg>>, msgs: seq<Msg>) {
    forall p, m :: p in byParent && m in byParent[p] ==> m in msgs
  }

  /** The message is in a group whose parent is missing, outside the groups `left`. */
  ghost predicate Orphaned(byParent: map<string, seq<Msg>>, known: set<string>, left: set<string>, m: Msg) {
    exists p :: p in byParent && p !in left && p != "" && p !in known && m in byParent[p]
  }

  lemma OrphanedLess(byParent: map<string, seq<Msg>>, known: set<string>, left: set<string>, p: string, m: Msg)
    requires p in left && left <= byParent.Keys
    ensures Orphaned(byParent, known, left - {p}, m) <==>
      Orphaned(byParent, known, left, m) || (p != "" && p !in known && m in byParent[p])
  {
    if Orphaned(byParent, known, left, m) {
      var q :| q in byParent && q !in left && q != "" && q !in known && m in byParent[q];
      assert q !in left - {p};
    }
  }

  /** Groups whose parent is missing join the root group, in whatever order the table yields them. */
  method AdoptOrphans(byParent: map<string, seq<Msg>>, known: set<string>, ghost msgs: seq<Msg>) returns (adopted: map<string, seq<Msg>>)
    requires AllListed(byParent, msgs)
    ensures (forall p :: p in byParent ==> p == "" || p in known) ==> adopted == byParent
    ensures AllListed(adopted, msgs)
    ensures forall p :: p != "" && p in known ==> Lookup(adopted, p) == Lookup(byParent, p)
    ensures forall m :: m in Lookup(adopted, "") <==> m in Lookup(byParent, "") || Orphaned(byParent, known, {}, m)
  {
    adopted := byParent;
    var left := byParent.Keys;
    while left != {}
      invariant left <= byParent.Keys
      invariant (forall p :: p in byParent ==> p == "" || p in known) ==> adopted == byParent
      invariant AllListed(adopted, msgs)
      invariant forall p :: p != "" && (p in known || p in left) ==> Lookup(adopted, p) == Lookup(byParent, p)
      invariant forall m :: m in Lookup(adopted, "") <==> m in Lookup(byParent, "") || Orphaned(byParent, known, left, m)
      decreases left
    {
      var p :| p in left;
      forall m ensures Orphaned(byParent, known, left - {p}, m) <==>
        Orphaned(byParent, known, left, m) || (p != "" && p !in known && m in byParent[p])
      {
        OrphanedLess(byParent, known, left, p, m);
      }
      left := left - {p};
      if p != "" && p !in known {
        adopted := adopted["" := Lookup(adopted, "") + Lookup(adopted, p)] - {p};
      }
    }
  }

  /** The walk over a table of groups. */
  function WalkMap(byParent: map<string, seq<Msg>>, parent: string, unvisited: set<string>): seq<BranchView>
    decreases unvisited
  {
    var group := Lookup(byParent, parent);
    if group == [] then [] else
    var current := PickActive(group);
    if current.id !in unvisited then [] else
    [ViewOf(group, current)] + WalkMap(byParent, current.id, unvisited - {current.id})
  }

  lemma {:induction false} WalkSame(byParent: map<string, seq<Msg>>, list: seq<Msg>, parent: string, unvisited: set<string>)
    requires forall p :: Lookup(byParent, p) == Children(list, p)
    ensures WalkMap(byParent, parent, unvisited) == WalkFrom(list, parent, unvisited)
    decreases unvisited
  {
    hide Children;
    var group := Lookup(byParent, parent);
    if group != [] && PickActive(group).id in unvisited {
      WalkSame(byParent, list, PickActive(group).id, unvisited - {PickActive(group).id});
    }
  }

  /** Shows only listed, unvisited messages, and none twice. */
  ghost predicate VisitsOnce(branch: seq<BranchView>, msgs: seq<Msg>, unvisited: set<string>) {
    && (forall i :: 0 <= i < |branch| ==> branch[i].msg in msgs && branch[i].msg.id in unvisited)
    && (forall i, j :: 0 <= i < j < |branch| ==> branch[i].msg.id != branch[j].msg.id)
  }

  lemma VisitsOneMore(v: BranchView, rest: seq<BranchView>, msgs: seq<Msg>, unvisited: set<string>)
    requires v.msg in msgs && v.msg.id in unvisited && VisitsOnce(rest, msgs, unvisited - {v.msg.id})
    ensures VisitsOnce([v] + rest, msgs, unvisited)
  {
  }

  /** Whatever the groups, the walk shows only listed messages and none twice. */
  lemma {:induction false} WalkVisitsOnce(byParent: map<string, seq<Msg>>, msgs: seq<Msg>, parent: string, unvisited: set<string>)
    requires AllListed(byParent, msgs)
    ensures VisitsOnce(WalkMap(byParent, parent, unvisited), msgs, unvisited)
    decreases unvisited
  {
    hide AllListed, PickActive, ViewOf;
    var group := Lookup(byParent, parent);
    if group != [] {
      var current := PickActive(group);
      PickedIsListed(byParent, msgs, parent);
      if current.id in unvisited {
        WalkVisitsOnce(byParent, msgs, current.id, unvisited - {current.id});
        ViewShows(group, current);
        VisitsOneMore(ViewOf(group, current), WalkMap(byParent, current.id, unvisited - {current.id}), msgs, unvisited);
      }
    }
  }

  lemma PickedIsListed(byParent: map<string, seq<Msg>>, msgs: seq<Msg>, parent: string)
    requires AllListed(byParent, msgs) && Lookup(byParent, parent) != []
    ensures PickActive(Lookup(byParent, parent)) in msgs
  {
  }

  /** The view is of the message picked from the group below `parent`. */
  ghost predicate PickedFrom(byParent: map<string, seq<Msg>>, parent: string, v: BranchView) {
    var group := Lookup(byParent, parent);
    group != [] && v == ViewOf(group, PickActive(group))
  }

  /** Each message is the one picked from the group below the one before it. */
  ghost predicate Picked(byParent: map<string, seq<Msg>>, branch: seq<BranchView>, parent: string) {
    && (branch != [] ==> PickedFrom(byParent, parent, branch[0]))
    && (forall i :: 0 < i < |branch| ==> PickedFrom(byParent, branch[i - 1].msg.id, branch[i]))
  }

  function LastId(branch: seq<BranchView>, parent: string): string {
    if branch == [] then parent else branch[|branch| - 1].msg.id
  }

  /** The walk went as far as it could: nothing below its end, or only a message shown already. */
  ghost predicate Ended(byParent: map<string, seq<Msg>>, branch: seq<BranchView>, parent: string, unvisited: set<string>) {
    var group := Lookup(byParent, LastId(branch, parent));
    group == [] || PickActive(group).id !in unvisited || Shows(branch, PickActive(group).id)
  }

  predicate Shows(branch: seq<BranchView>, id: string) {
    exists i :: 0 <= i < |branch| && branch[i].msg.id == id
  }

  lemma {:induction false} WalkPicks(byParent: map<string, seq<Msg>>, parent: string, unvisited: set<string>)
    ensures Picked(byParent, WalkMap(byParent, parent, unvisited), parent)
    ensures Ended(byParent, WalkMap(byParent, parent, unvisited), parent, unvisited)
    decreases unvisited
  {
    hide PickActive, Lookup, ViewOf;
    var group := Lookup(byParent, parent);
    if group != [] && PickActive(group).id in unvisited {
      var current := PickActive(group);
      var rest := WalkMap(byParent, current.id, unvisited - {current.id});
      WalkPicks(byParent, current.id, unvisited - {current.id});
      ViewShows(group, current);
      PickedOneMore(byParent, parent, ViewOf(group, current), rest);
      EndedOneMore(byParent, parent, ViewOf(group, current), rest, unvisited);
    }
  }

  lemma PickedOneMore(byParent: map<string, seq<Msg>>, parent: string, v: BranchView, rest: seq<BranchView>)
    requires PickedFrom(byParent, parent, v) && Picked(byParent, rest, v.msg.id)
    ensures Picked(byParent, [v] + rest, parent)
  {
    hide PickedFrom;
    var branch := [v] + rest;
    forall i | 0 < i < |branch| ensures PickedFrom(byParent, branch[i - 1].msg.id, branch[i]) {
      assert branch[i] == rest[i - 1];
      if i > 1 { assert branch[i - 1] == rest[i - 2]; }
    }
  }

  lemma EndedOneMore(byParent: map<string, seq<Msg>>, parent: string, v: BranchView, rest: seq<BranchView>, unvisited: set<string>)
    requires Ended(byParent, rest, v.msg.id, unvisited - {v.msg.id})
    ensures Ended(byParent, [v] + rest, parent, unvisited)
  {
    hide PickActive, Lookup;
    var branch := [v] + rest;
    assert LastId(branch, parent) == LastId(rest, v.msg.id);
    var group := Lookup(byParent, LastId(branch, parent));
    if group != [] {
      var id := PickActive(group).id;
      if Shows(rest, id) {
        var i :| 0 <= i < |rest| && rest[i].msg.id == id;
        assert branch[i + 1].msg.id == id;
      }
      assert branch[0].msg.id == v.msg.id;
    }
  }

  /** The first group: the roots together with the messages whose parent is missing, oldest first. */
  ghost predicate RootGroup(msgs: seq<Msg>, group: seq<Msg>) {
    && (forall m :: m in group <==> m in msgs && (m.parent == "" || m.parent !in IdSet(msgs)))
    && InCreationOrder(group)
  }

  /** The groups the walk reads: below the root the first group, below a message its children. */
  ghost predicate GroupsAre(byParent: map<string, seq<Msg>>, msgs: seq<Msg>) {
    && RootGroup(msgs, Lookup(byParent, ""))
    && forall p :: p != "" && p in IdSet(msgs) ==> Lookup(byParent, p) == Children(msgs, p)
  }

  /** The path shown of any list at all: from the first group on, the picked child of each message, as far as it goes. */
  ghost predicate ShowsPicked(msgs: seq<Msg>, branch: seq<BranchView>) {
    exists byParent :: GroupsAre(byParent, msgs) && Picked(byParent, branch, "") && Ended(byParent, branch, "", IdSet(msgs))
  }

  lemma RootsWithOrphans(msgs: seq<Msg>, byParent: map<string, seq<Msg>>, m: Msg)
    requires forall p :: Lookup(byParent, p) == Children(msgs, p)
    ensures m in Lookup(byParent, "") || Orphaned(byParent, IdSet(msgs), {}, m) <==>
      m in msgs && (m.parent == "" || m.parent !in IdSet(msgs))
  {
    hide Children;
    forall p ensures m in Lookup(byParent, p) <==> m in msgs && m.parent == p { ChildMembers(msgs, p, m); }
    if m in msgs && m.parent != "" && m.parent !in IdSet(msgs) {
      assert m in Lookup(byParent, m.parent);
    }
    if Orphaned(byParent, IdSet(msgs), {}, m) {
      var p :| p in byParent && p != "" && p !in IdSet(msgs) && m in byParent[p];
      assert m in Lookup(byParent, p);
    }
  }

  lemma ChildMembers(msgs: seq<Msg>, p: string, m: Msg)
    ensures m in Children(msgs, p) <==> m in msgs && m.parent == p
  {
    SortMembers(WithParent(msgs, p), Older, m);
    FilterMembers(msgs, (x: Msg) => x.parent == p, m);
  }

  method WalkLoop(byParent: map<string, seq<Msg>>, known: set<string>, ghost msgs: seq<Msg>) returns (branch: seq<BranchView>)
    requires AllListed(byParent, msgs) && known == IdSet(msgs)
    ensures branch == WalkMap(byParent, "", known)
  {
    hide AllListed, PickActive, ViewOf;
    branch := [];
    var visited: set<string> := {};
    var parent := "";
    assert known - visited == known;
    while true
      invariant visited <= known
      invariant branch + WalkMap(byParent, parent, known - visited) == WalkMap(byParent, "", known)
      decreases known - visited
    {
      var group := Lookup(byParent, parent);
      if group == [] {
        break;
      }
      var current := PickActiveLoop(group);
      PickedIsListed(byParent, msgs, parent);
      if current.id in visited {
        break;
      }
      var v := DescribeView(group, current);
      assert (known - visited) - {current.id} == known - (visited + {current.id});
      visited := visited + {current.id};
      branch := branch + [v];
      parent := current.id;
    }
  }

  /**
   The visible transcript. On any list at all the walk ends, shows only messages of
   the list and none twice, and follows picked children from the roots and orphans on
   as far as it can; without orphans it is the walk along active children.
   */
  method ActiveBranchLoop(msgs: seq<Msg>) returns (branch: seq<BranchView>)
    ensures NoOrphans(msgs) ==> branch == ActiveBranch(msgs)
    ensures forall i :: 0 <= i < |branch| ==> branch[i].msg in msgs
    ensures forall i, j :: 0 <= i < j < |branch| ==> branch[i].msg.id != branch[j].msg.id
    ensures ShowsPicked(msgs, branch)
  {
    hide GroupsAre, AllListed, Children, WalkMap;
    var known := set m | m in msgs :: m.id;
    var groups := GroupsToWalk(msgs);
    branch := WalkLoop(groups, known, msgs);
    if NoOrphans(msgs) { WalkSame(groups, msgs, "", known); }
    WalkVisitsOnce(groups, msgs, "", known);
    WalkPicks(groups, "", known);
  }

  /** The groups below the root and below each message, with orphans among the roots. */
  method GroupsToWalk(msgs: seq<Msg>) returns (groups: map<string, seq<Msg>>)
    ensures GroupsAre(groups, msgs) && AllListed(groups, msgs)
    ensures NoOrphans(msgs) ==> forall p :: Lookup(groups, p) == Children(msgs, p)
  {
    hide Children, Sort, WithParent, InCreationOrder, Orphaned, AllListed;
    var byParent := ChildrenByParent(msgs);
    ChildrenAreListed(msgs, byParent);
    forall m ensures m in Lookup(byParent, "") || Orphaned(byParent, IdSet(msgs), {}, m) <==>
      m in msgs && (m.parent == "" || m.parent !in IdSet(msgs))
    {
      RootsWithOrphans(msgs, byParent, m);
    }
    var known := set m | m in msgs :: m.id;
    groups := AdoptOrphans(byParent, known, msgs);
    var roots := Lookup(groups, "");
    SortedRoots(roots);
    if NoOrphans(msgs) {
      ParentsAreKnown(msgs, byParent);
      SortedAlready(msgs, "");
    }
    if |roots| > 1 {
      SortedListed(groups, msgs);
      groups := groups["" := Sort(roots, Older)];
    }
  }

  lemma SortedAlready(msgs: seq<Msg>, p: string)
    ensures Sort(Children(msgs, p), Older) == Children(msgs, p)
  {
    SortTwice(WithParent(msgs, p));
  }

  lemma SortedListed(groups: map<string, seq<Msg>>, msgs: seq<Msg>)
    requires AllListed(groups, msgs)
    ensures AllListed(groups["" := Sort(Lookup(groups, ""), Older)], msgs)
  {
    SortListed(Lookup(groups, ""), msgs);
  }

  lemma SortedRoots(roots: seq<Msg>)
    ensures InCreationOrder(Sort(roots, Older)) && forall m :: m in Sort(roots, Older) <==> m in roots
    ensures |roots| <= 1 ==> InCreationOrder(roots)
  {
    SortInOrder(roots);
    forall m ensures m in Sort(roots, Older) <==> m in roots { SortMembers(roots, Older, m); }
  }

  lemma ChildrenAreListed(msgs: seq<Msg>, byParent: map<string, seq<Msg>>)
    requires forall p :: Lookup(byParent, p) == Children(msgs, p)
    ensures AllListed(byParent, msgs)
  {
    forall p, m | p in byParent && m in byParent[p] ensures m in msgs {
      assert m in Children(msgs, p);
      SortMembers(WithParent(msgs, p), Older, m);
      FilterMembers(msgs, (m: Msg) => m.parent == p, m);
    }
  }

  lemma SortListed(group: seq<Msg>, msgs: seq<Msg>)
    requires forall m :: m in group ==> m in msgs
    ensures forall m :: m in Sort(group, Older) ==> m in msgs
  {
    forall m | m in Sort(group, Older) ensures m in msgs { SortMembers(group, Older, m); }
  }

  lemma ParentsAreKnown(msgs: seq<Msg>, byParent: map<string, seq<Msg>>)
    requires NoOrphans(msgs) && forall p :: p in byParent ==> WithParent(msgs, p) != []
    ensures forall p :: p in byParent ==> p == "" || p in IdSet(msgs)
  {
    forall p | p in byParent ensures p == "" || p in IdSet(msgs) {
      var m := WithParent(msgs, p)[0];
      FilterMembers(msgs, (m: Msg) => m.parent == p, m);
    }
  }

  ghost predicate InCreationOrder(s: seq<Msg>) {
    forall i, j :: 0 <= i < j < |s| ==> s[i].createdAt <= s[j].createdAt
  }

  lemma {:induction false} InsertInOrder(x: Msg, s: seq<Msg>)
    requires InCreationOrder(s)
    ensures InCreationOrder(Insert(x, s, Older))
  {
    if s != [] && Older(s[0], x) {
      InsertInOrder(x, s[1..]);
      var t := Insert(x, s[1..], Older);
      forall i | 0 <= i < |t| ensures s[0].createdAt <= t[i].createdAt {
        InsertMembers(x, s[1..], Older, t[i]);
        assert t[i] in t;
      }
    }
  }

  lemma {:induction false} SortInOrder(s: seq<Msg>)
    ensures InCreationOrder(Sort(s, Older))
  {
    if s != [] {
      SortInOrder(s[1..]);
      InsertInOrder(s[0], Sort(s[1..], Older));
    }
  }

  lemma SortTwice(s: seq<Msg>)
    ensures Sort(Sort(s, Older), Older) == Sort(s, Older)
  {
    SortInOrder(s);
    SortKeepsSorted(Sort(s, Older));
  }

  /** The transcript through one message, wherever it sits: back to the root, then shown forwards. */
  method BranchThroughLoop(msgs: seq<Msg>, messageId: string) returns (path: seq<BranchView>)
    ensures path == BranchThrough(msgs, messageId)
  {
    hide Views;
    if messageId == "" {
      return [];
    }
    var byId: map<string, Msg> := map[];
    for i := 0 to |msgs|
      invariant byId == ById(msgs[..i])
    {
      assert msgs[..i + 1][..i] == msgs[..i];
      byId := byId[msgs[i].id := msgs[i]];
    }
    assert msgs[..|msgs|] == msgs;
    var reversed := AncestorsLoop(byId, messageId);
    path := ShowForwards(msgs, reversed);
  }

  /** Describes a leaf-to-root path from its root on, each message among its siblings. */
  method ShowForwards(msgs: seq<Msg>, reversed: seq<Msg>) returns (path: seq<BranchView>)
    ensures path == Views(msgs, Reversed(reversed))
  {
    hide Children, ViewOf, Reversed;
    var byParent := ChildrenByParent(msgs);
    path := [];
    ghost var forwards := Reversed(reversed);
    ReversedLength(reversed);
    for i := |reversed| downto 0
      invariant path == Views(msgs, forwards)[..|reversed| - i]
    {
      RootFirst(reversed, |reversed| - 1 - i);
      var v := DescribeView(Lookup(byParent, reversed[i].parent), reversed[i]);
      path := path + [v];
    }
  }

  method AncestorsLoop(byId: map<string, Msg>, messageId: string) returns (reversed: seq<Msg>)
    ensures reversed == Ancestors(byId, messageId, byId.Keys)
  {
    reversed := [];
    var seen: set<string> := {};
    var id := messageId;
    assert byId.Keys - seen == byId.Keys;
    while id != "" && id in byId && id !in seen
      invariant seen <= byId.Keys
      invariant reversed + Ancestors(byId, id, byId.Keys - seen) == Ancestors(byId, messageId, byId.Keys)
      decreases byId.Keys - seen
    {
      assert (byId.Keys - seen) - {id} == byId.Keys - (seen + {id});
      seen := seen + {id};
      reversed := reversed + [byId[id]];
      id := byId[id].parent;
    }
  }

  lemma {:induction false} ReversedLength(s: seq<Msg>)
    ensures |Reversed(s)| == |s|
  {
    if s != [] { ReversedLength(s[1..]); }
  }

  lemma {:induction false} RootFirst(s: seq<Msg>, k: nat)
    requires k < |s|
    ensures |Reversed(s)| == |s| && Reversed(s)[k] == s[|s| - 1 - k]
  {
    ReversedLength(s);
    ReversedLength(s[1..]);
    if k < |s| - 1 { RootFirst(s[1..], k); }
  }

  lemma ParentRow(rows: seq<Msg>, i: nat) returns (d: nat)
    requires Rooted(rows) && i < |rows| && rows[i].parent != ""
    ensures d < |rows| && rows[d].id == rows[i].parent
  {
    var rank := RankOf(rows);
    assert HangsBelow(rows, rank, i);
    d :| 0 <= d < |rows| && rows[d].id == rows[i].parent;
  }

  /** A reachable conversation has no orphans, so the program shows exactly its active branch. */
  lemma TreeHasNoOrphans(rows: seq<Msg>)
    requires Tree(rows)
    ensures NoOrphans(ListMessages(rows))
  {
    hide ListMessages, OneActive, Rooted;
    var list := ListMessages(rows);
    ListingOf(rows);
    forall m | m in list ensures m.parent == "" || m.parent in IdSet(list) {
      assert m in rows;
      var i :| 0 <= i < |rows| && rows[i] == m;
      if m.parent != "" {
        var d := ParentRow(rows, i);
        assert rows[d] in rows && rows[d] in list;
      }
    }
  }
}
