/**
 The stored community event log and the queries that decide what one page of a
 sync carries: per-author cursors, missing ranges, and the filtered listing.
 */
module EventLog {
  import opened Ordering

  /** Acceptance does not look at the event type, so a log may hold types the view does not know. */
  datatype Kind = Message | Edit | Delete | Tombstone | Channel | ChannelDelete | Other(name: string)

  datatype Event = Event(
    id: string,
    room: string,
    channel: string,
    author: string,
    seq_: int,
    kind: Kind,
    target: string,
    content: string,
    timestamp: int,
    signature: string,
    sigVersion: int,
    status: string)

  /** An event without the status each node keeps for itself. */
  function Strip(e: Event): Event {
    e.(status := "")
  }

  /** The community_events table: rows by primary key. */
  type Store = map<string, Event>

  ghost predicate WellKeyed(store: Store) {
    forall id :: id in store ==> store[id].id == id
  }

  /** SaveEvent: a row already present only has its replication status replaced. */
  function Save(store: Store, e: Event): Store {
    var e1 := if e.status == "" then e.(status := "local") else e;
    if e1.id in store then store[e1.id := store[e1.id].(status := e1.status)] else store[e1.id := e1]
  }

  // ----- row order -----

  /** ORDER BY author, seq, id. */
  predicate RowLess(a: Event, b: Event) {
    if a.author != b.author then StrLess(a.author, b.author)
    else if a.seq_ != b.seq_ then a.seq_ < b.seq_
    else StrLess(a.id, b.id)
  }

  lemma RowLessTotal(S: set<Event>)
    requires forall a, b :: a in S && b in S && a.id == b.id ==> a == b
    ensures TotalOn(RowLess, S)
  {
    forall x | x in S ensures !RowLess(x, x) { StrIrreflexive(x.id); }
    forall x, y | x in S && y in S && x != y ensures RowLess(x, y) || RowLess(y, x) {
      StrTotal(x.author, y.author);
      StrTotal(x.id, y.id);
    }
    forall x, y, z | x in S && y in S && z in S && RowLess(x, y) && RowLess(y, z) ensures RowLess(x, z) {
      RowLessTransitive(x, y, z);
    }
  }

  lemma RowLessTransitive(x: Event, y: Event, z: Event)
    requires RowLess(x, y) && RowLess(y, z)
    ensures RowLess(x, z)
  {
    if x.author != y.author && y.author != z.author {
      StrTransitive(x.author, y.author, z.author);
      StrAsymmetric(x.author, z.author);
    }
    if x.author == y.author == z.author && x.seq_ == y.seq_ == z.seq_ {
      StrTransitive(x.id, y.id, z.id);
    }
  }

  ghost function RowSet(store: Store): set<Event> {
    set id | id in store :: store[id]
  }

  /** The result of the ordered SELECT over the whole table. */
  ghost function Rows(store: Store): (rows: seq<Event>)
    requires WellKeyed(store)
    ensures Enumerates(rows, RowSet(store), RowLess)
  {
    RowLessTotal(RowSet(store));
    Enumerate(RowSet(store), RowLess)
  }

  // ----- cursors and gaps -----

  type Range = (int, int)

  predicate Holds(rows: seq<Event>, author: string, s: int) {
    exists i :: 0 <= i < |rows| && rows[i].author == author && rows[i].seq_ == s
  }

  /** Rows grouped by author, ascending in sequence within each. */
  ghost predicate Grouped(rows: seq<Event>) {
    && (forall i, j :: 0 <= i < j < |rows| && rows[i].author == rows[j].author ==> rows[i].seq_ <= rows[j].seq_)
    && (forall i, j, k :: 0 <= i < j < k < |rows| && rows[i].author == rows[k].author ==> rows[j].author == rows[i].author)
  }

  /** `cursors` maps each author with a row to the largest sequence it holds. */
  ghost predicate AreCursors(cursors: map<string, int>, rows: seq<Event>) {
    && (forall a :: a in cursors ==> Holds(rows, a, cursors[a]))
    && (forall i :: 0 <= i < |rows| ==> rows[i].author in cursors && rows[i].seq_ <= cursors[rows[i].author])
  }

  predicate InGaps(s: int, ranges: seq<Range>) {
    exists i :: 0 <= i < |ranges| && ranges[i].0 <= s <= ranges[i].1
  }

  function RangesOf(gaps: map<string, seq<Range>>, author: string): seq<Range> {
    if author in gaps then gaps[author] else []
  }

  /** Non-empty ranges, ascending, with at least one number between neighbours. */
  ghost predicate Separated(ranges: seq<Range>) {
    && (forall i :: 0 <= i < |ranges| ==> 1 <= ranges[i].0 <= ranges[i].1)
    && (forall i, j :: 0 <= i < j < |ranges| ==> ranges[i].1 + 1 < ranges[j].0)
  }

  /** The ranges list exactly the sequences below the author's largest that no row holds. */
  ghost predicate AreGaps(gaps: map<string, seq<Range>>, rows: seq<Event>) {
    && (forall a :: Separated(RangesOf(gaps, a)))
    && (forall a, s :: InGaps(s, RangesOf(gaps, a)) <==> 1 <= s && !Holds(rows, a, s) && HasAbove(rows, a, s))
  }

  predicate HasAbove(rows: seq<Event>, author: string, s: int) {
    exists i :: 0 <= i < |rows| && rows[i].author == author && rows[i].seq_ > s
  }

  /** The inGaps search loop. */
  method InGapsLoop(s: int, ranges: seq<Range>) returns (found: bool)
    ensures found <==> InGaps(s, ranges)
  {
    for i := 0 to |ranges|
      invariant forall j :: 0 <= j < i ==> !(ranges[j].0 <= s <= ranges[j].1)
    {
      if s >= ranges[i].0 && s <= ranges[i].1 {
        return true;
      }
    }
    return false;
  }

  /** SELECT author, MAX(seq) GROUP BY author. */
  method AuthorCursors(rows: seq<Event>) returns (cursors: map<string, int>)
    ensures AreCursors(cursors, rows)
  {
    cursors := map[];
    for i := 0 to |rows|
      invariant AreCursors(cursors, rows[..i])
    {
      var e := rows[i];
      ghost var before := cursors;
      if e.author !in cursors || cursors[e.author] < e.seq_ {
        cursors := cursors[e.author := e.seq_];
      }
      CursorStep(before, cursors, rows, i);
    }
    assert rows[..|rows|] == rows;
  }

  lemma CursorStep(before: map<string, int>, cursors: map<string, int>, rows: seq<Event>, i: nat)
    requires i < |rows| && AreCursors(before, rows[..i])
    requires var e := rows[i];
      cursors == if e.author !in before || before[e.author] < e.seq_ then before[e.author := e.seq_] else before
    ensures AreCursors(cursors, rows[..i + 1])
  {
  }

  /**
   What the gap scan knows after some rows: every author but the current one is
   done, and for the current one every sequence below `expected` is held or listed.
   */
  ghost predicate Scanned(gaps: map<string, seq<Range>>, rows: seq<Event>, current: string, expected: int) {
    && AreGaps(gaps, rows)
    && expected >= 1
    && !HasAbove(rows, current, expected - 1)
    && (expected > 1 ==> Holds(rows, current, expected - 1))
  }

  /** One pass over the ordered rows yields exactly the missing ranges. */
  method AuthorGaps(rows: seq<Event>) returns (gaps: map<string, seq<Range>>)
    requires Grouped(rows)
    ensures AreGaps(gaps, rows)
  {
    hide AreGaps;
    gaps := map[];
    EmptyGaps();
    var current := "";
    var expected := 1;
    for i := 0 to |rows|
      invariant Scanned(gaps, rows[..i], current, expected)
      invariant i > 0 ==> rows[i - 1].author == current
    {
      var author, s := rows[i].author, rows[i].seq_;
      if author != current {
        NewAuthor(rows, i, current);
        current := author;
        expected := 1;
      }
      ghost var before, exp := gaps, expected;
      if s > expected {
        gaps := gaps[author := RangesOf(gaps, author) + [(expected, s - 1)]];
      }
      if s >= expected {
        expected := s + 1;
      }
      GapStep(before, gaps, rows, i, exp);
    }
    assert rows[..|rows|] == rows;
  }

  lemma EmptyGaps()
    ensures AreGaps(map[], [])
  {
  }

  lemma NewAuthor(rows: seq<Event>, i: nat, current: string)
    requires Grouped(rows) && i < |rows| && rows[i].author != current
    requires i > 0 ==> rows[i - 1].author == current
    ensures !HasAbove(rows[..i], rows[i].author, 0)
  {
  }

  lemma PrefixPlus(rows: seq<Event>, i: nat, a: string, s: int)
    requires i < |rows|
    ensures Holds(rows[..i + 1], a, s) <==> Holds(rows[..i], a, s) || (rows[i].author == a && rows[i].seq_ == s)
    ensures HasAbove(rows[..i + 1], a, s) <==> HasAbove(rows[..i], a, s) || (rows[i].author == a && rows[i].seq_ > s)
  {
  }

  lemma InGapsPlus(ranges: seq<Range>, r: Range, s: int)
    ensures InGaps(s, ranges + [r]) <==> InGaps(s, ranges) || r.0 <= s <= r.1
  {
    var now := ranges + [r];
    assert now[|ranges|] == r;
    assert forall j :: 0 <= j < |ranges| ==> now[j] == ranges[j];
  }

  lemma GapStep(before: map<string, seq<Range>>, gaps: map<string, seq<Range>>, rows: seq<Event>, i: nat, expected: int)
    requires i < |rows| && Grouped(rows)
    requires Scanned(before, rows[..i], rows[i].author, expected)
    requires var e := rows[i];
      gaps == if e.seq_ > expected then before[e.author := RangesOf(before, e.author) + [(expected, e.seq_ - 1)]] else before
    ensures Scanned(gaps, rows[..i + 1], rows[i].author, if rows[i].seq_ >= expected then rows[i].seq_ + 1 else expected)
  {
    hide AreGaps;
    GapStepGaps(before, gaps, rows, i, expected);
    NextExpected(rows, i, expected);
  }

  lemma NextExpected(rows: seq<Event>, i: nat, expected: int)
    requires i < |rows| && expected >= 1 && !HasAbove(rows[..i], rows[i].author, expected - 1)
    requires expected > 1 ==> Holds(rows[..i], rows[i].author, expected - 1)
    ensures var expected2 := if rows[i].seq_ >= expected then rows[i].seq_ + 1 else expected;
      && !HasAbove(rows[..i + 1], rows[i].author, expected2 - 1)
      && (expected2 > 1 ==> Holds(rows[..i + 1], rows[i].author, expected2 - 1))
  {
  }

  lemma GapStepGaps(before: map<string, seq<Range>>, gaps: map<string, seq<Range>>, rows: seq<Event>, i: nat, expected: int)
    requires i < |rows| && Grouped(rows)
    requires Scanned(before, rows[..i], rows[i].author, expected)
    requires var e := rows[i];
      gaps == if e.seq_ > expected then before[e.author := RangesOf(before, e.author) + [(expected, e.seq_ - 1)]] else before
    ensures AreGaps(gaps, rows[..i + 1])
  {
    forall a, t
      ensures InGaps(t, RangesOf(gaps, a)) <==> 1 <= t && !Holds(rows[..i + 1], a, t) && HasAbove(rows[..i + 1], a, t)
    {
      GapStepAt(before, gaps, rows, i, expected, a, t);
    }
    StillSeparated(before, rows, i, expected);
    forall a ensures Separated(RangesOf(gaps, a)) {
      assert Separated(RangesOf(before, a));
    }
  }

  lemma StillSeparated(before: map<string, seq<Range>>, rows: seq<Event>, i: nat, expected: int)
    requires i < |rows| && Scanned(before, rows[..i], rows[i].author, expected)
    ensures rows[i].seq_ > expected ==> Separated(RangesOf(before, rows[i].author) + [(expected, rows[i].seq_ - 1)])
  {
    var author := rows[i].author;
    var ranges := RangesOf(before, author);
    assert Separated(ranges);
    forall j | 0 <= j < |ranges| ensures ranges[j].1 + 1 < expected {
      // the last number of a range is missing and something above it is held
      assert InGaps(ranges[j].1, ranges);
      assert HasAbove(rows[..i], author, ranges[j].1) && !Holds(rows[..i], author, ranges[j].1);
      NoneAbove(rows[..i], author, expected - 1, ranges[j].1);
    }
  }

  lemma GapStepAt(before: map<string, seq<Range>>, gaps: map<string, seq<Range>>, rows: seq<Event>, i: nat, expected: int, a: string, t: int)
    requires i < |rows| && Grouped(rows)
    requires Scanned(before, rows[..i], rows[i].author, expected)
    requires var e := rows[i];
      gaps == if e.seq_ > expected then before[e.author := RangesOf(before, e.author) + [(expected, e.seq_ - 1)]] else before
    ensures InGaps(t, RangesOf(gaps, a)) <==> 1 <= t && !Holds(rows[..i + 1], a, t) && HasAbove(rows[..i + 1], a, t)
  {
    var e := rows[i];
    var was := rows[..i];
    PrefixPlus(rows, i, a, t);
    assert InGaps(t, RangesOf(before, a)) <==> 1 <= t && !Holds(was, a, t) && HasAbove(was, a, t);
    if a == e.author {
      InGapsPlus(RangesOf(before, a), (expected, e.seq_ - 1), t);
      NoneAbove(was, a, expected - 1, t);
      SortedBelow(rows, i, t);
      if Holds(was, a, t) { assert t <= expected - 1; }
    }
  }

  lemma NoneAbove(rows: seq<Event>, a: string, bound: int, t: int)
    requires !HasAbove(rows, a, bound)
    ensures t >= bound ==> !HasAbove(rows, a, t)
    ensures t > bound ==> !Holds(rows, a, t)
    ensures Holds(rows, a, bound) && t < bound ==> HasAbove(rows, a, t)
  {
  }

  lemma SortedBelow(rows: seq<Event>, i: nat, t: int)
    requires i < |rows| && Grouped(rows)
    ensures HasAbove(rows[..i], rows[i].author, t) ==> rows[i].seq_ > t
  {
  }
}
