/**
 What a sync lists and stores, read off the fields: the order of a page, that a stored
 event is never rewritten, and that small stores converge even when authors reused
 sequences.
 */
module EventSyncLaws {
  import opened Ordering
  import opened EventLog
  import opened EventSync

  /** Earlier by author, then by sequence, then by id. */
  predicate Precedes(a: Event, b: Event) {
    || StrLess(a.author, b.author)
    || (a.author == b.author && a.seq_ < b.seq_)
    || (a.author == b.author && a.seq_ == b.seq_ && StrLess(a.id, b.id))
  }

  lemma LessIsPrecedes(a: Event, b: Event)
    ensures RowLess(a, b) <==> Precedes(a, b)
  {
    StrIrreflexive(a.author);
  }

  /** The missing events that do not fit on a page come after all that do, which stand in order. */
  lemma PageIsFirst(L: Store, R: Store)
    requires Compatible(L, R) && Positive(R)
    ensures var page := Page(L, R);
      && |page| == (if |Missing(L, R)| <= 500 then |Missing(L, R)| else 500)
      && (forall e :: e in page ==> e in Missing(L, R))
      && (forall i, j :: 0 <= i < j < |page| ==> Precedes(page[i], page[j]))
      && (forall e, f :: e in page && f in Missing(L, R) && f !in page ==> Precedes(e, f))
  {
    hide Page, Missing, Compatible, Positive, Precedes, RowLess, Enumerates;
    Keyed(L, R);
    PageIsMissing(L, R);
    var page := Page(L, R);
    FirstRows(MissingRows(L, R), Missing(L, R), page);
    forall i, j | 0 <= i < j < |page| ensures Precedes(page[i], page[j]) { LessIsPrecedes(page[i], page[j]); }
    forall e, f | e in page && f in Missing(L, R) && f !in page ensures Precedes(e, f) { LessIsPrecedes(e, f); }
  }

  /** The first rows of an ordered listing. */
  lemma FirstRows(rows: seq<Event>, S: set<Event>, page: seq<Event>)
    requires Enumerates(rows, S, RowLess) && |rows| == |S| && page == Take(rows, PAGE_SIZE)
    ensures |page| == (if |S| <= 500 then |S| else 500) && forall e :: e in page ==> e in S
    ensures forall i, j :: 0 <= i < j < |page| ==> RowLess(page[i], page[j])
    ensures forall e, f :: e in page && f in S && f !in page ==> RowLess(e, f)
  {
    hide RowLess;
    assert forall q :: 0 <= q < |page| ==> page[q] == rows[q] && page[q] in page && rows[q] in rows;
    forall e, f | e in page && f in S && f !in page ensures RowLess(e, f) {
      var i :| 0 <= i < |page| && page[i] == e;
      assert f in rows;
      var j :| 0 <= j < |rows| && rows[j] == f;
      assert j >= |page|;
    }
  }

  /** With refusals: an acceptable event arrives exactly when fewer than 500 refused ones precede it. */
  lemma ArrivesExactly(L: Store, R: Store, accept: Event -> bool, n: nat, e: Event)
    requires Compatible(L, R) && Positive(R) && e in Missing(L, R) && accept(e)
    requires Stopped(Pull(L, R, accept, n), R, accept)
    ensures e.id in Pull(L, R, accept, n) <==> |set f | f in Missing(L, R) && !accept(f) && Precedes(f, e)| < 500
  {
    hide Pull, Compatible, Positive, Missing, Stopped, RowLess, Precedes;
    Keyed(L, R);
    PullFetchesExactly(L, R, accept, n, e);
    forall a, b ensures RowLess(a, b) <==> Precedes(a, b) { LessIsPrecedes(a, b); }
    assert (set f | f in Missing(L, R) && !accept(f) && Precedes(f, e)) == RefusedBefore(L, R, accept, e);
  }

  // ----- stored events are never rewritten -----

  /** `L2` has every event of `L`, with at most its status changed. */
  ghost predicate Keeps(L: Store, L2: Store) {
    forall id :: id in L ==> id in L2 && L2[id] == L[id].(status := L2[id].status)
  }

  lemma SaveKeeps(L: Store, e: Event)
    ensures Keeps(L, Save(L, e)) && (e.id !in L ==> Save(L, e) == L[e.id := e.(status := if e.status == "" then "local" else e.status)])
    ensures e.id in L ==> Save(L, e).Keys == L.Keys && Save(L, e)[e.id].status == if e.status == "" then "local" else e.status
  {
  }

  lemma {:induction false} SaveAllKeeps(L: Store, events: seq<Event>)
    ensures Keeps(L, SaveAll(L, events))
    decreases |events|
  {
    hide Save;
    if events != [] {
      var e := events[0].(status := "replicated");
      SaveKeeps(L, e);
      SaveAllKeeps(Save(L, e), events[1..]);
    }
  }

  /** Whatever a peer sends in however many pages, what a node stored keeps its content, author, sequence and signature. */
  lemma {:induction false} PullKeepsStored(L: Store, R: Store, accept: Event -> bool, n: nat)
    requires WellKeyed(L) && WellKeyed(R)
    ensures Keeps(L, Pull(L, R, accept, n))
    decreases n
  {
    hide Page, WellKeyed, SaveAll;
    if n > 0 && Applied(L, R, accept) != [] {
      var L2 := AfterPage(L, R, accept);
      assert L2 == SaveAll(L, Applied(L, R, accept));
      SaveAllKeeps(L, Applied(L, R, accept));
      PullKeepsStored(L2, R, accept, n - 1);
    }
  }

  // ----- small stores -----

  /** A requester with at most 500 events is sent exactly what it lacks by id, conflicts included. */
  lemma WantedWhenFew(L: Store, R: Store, id: string)
    requires WellKeyed(L) && WellKeyed(R) && |L.Keys| <= 500 && id in R
    ensures Wanted(L, R, R[id]) <==> id !in L
  {
    hide RowLess, IsMulti;
    EmptyRows(L);
  }

  lemma RowsFit(R: Store)
    requires WellKeyed(R)
    ensures |Rows(R)| == |R.Keys|
  {
    hide RowLess;
    var none: Store := map[];
    var rows := Rows(R);
    AscendingDistinct(rows);
    DistinctSize(rows);
    assert (set e | e in rows) == RowSet(R);
    assert Missing(none, R) == RowSet(R) && R.Keys - none.Keys == R.Keys;
    MissingIds(none, R);
  }

  lemma RowHasId(R: Store, e: Event)
    requires WellKeyed(R) && e in RowSet(R)
    ensures e.id in R && R[e.id] == e
  {
  }

  lemma EmptyRows(L: Store)
    requires WellKeyed(L)
    ensures L.Keys == {} ==> Rows(L) == []
  {
    hide RowLess;
    if Rows(L) != [] {
      assert Rows(L)[0] in Rows(L);
      RowHasId(L, Rows(L)[0]);
    }
  }

  lemma {:induction false} FilterShorter<T>(s: seq<T>, keep: T -> bool)
    ensures |Filter(s, keep)| <= |s|
  {
    if s != [] { FilterShorter(s[1..], keep); }
  }

  /**
   Rooms of at most 500 events converge whatever their authors did: one page with
   everything accepted leaves the requester with every id of both stores, even when
   sequences were reused.
   */
  lemma SmallRoomsConverge(L: Store, R: Store, accept: Event -> bool)
    requires WellKeyed(L) && WellKeyed(R) && |L.Keys| <= 500 && |R.Keys| <= 500
    requires forall e :: e in RowSet(R) ==> accept(e)
    ensures AfterPage(L, R, accept).Keys == L.Keys + R.Keys
  {
    hide RowSet, WellKeyed, Applied, SaveAll;
    var events := Applied(L, R, accept);
    AppliedRows(L, R, accept);
    SavedKeys(L, events);
    assert AfterPage(L, R, accept) == SaveAll(L, events);
    forall id | id in R && id !in L ensures Arrives(events, id) {
      RowIn(R, id);
      FewApplied(L, R, accept, id);
    }
    forall e | e in events ensures e.id in R { RowHasId(R, e); }
    UnionOfKeys(L.Keys, R.Keys, events);
  }

  predicate Arrives(events: seq<Event>, id: string) {
    exists i :: 0 <= i < |events| && events[i].id == id
  }

  lemma UnionOfKeys(L: set<string>, R: set<string>, events: seq<Event>)
    requires (forall id :: id in R && id !in L ==> Arrives(events, id)) && forall e :: e in events ==> e.id in R
    ensures L + (set e | e in events :: e.id) == L + R
  {
    forall id | id in R && id !in L ensures id in set e | e in events :: e.id {
      var i :| 0 <= i < |events| && events[i].id == id;
      assert events[i] in events;
    }
  }

  lemma {:induction false} SavedKeys(L: Store, events: seq<Event>)
    ensures SaveAll(L, events).Keys == L.Keys + set e | e in events :: e.id
    decreases |events|
  {
    hide Save;
    if events != [] {
      var e := events[0].(status := "replicated");
      SaveKeeps(L, e);
      assert Save(L, e).Keys == L.Keys + {e.id};
      SavedKeys(Save(L, e), events[1..]);
      assert events == [events[0]] + events[1..];
      assert (set x | x in events :: x.id) == {events[0].id} + (set x | x in events[1..] :: x.id);
    }
  }

  lemma FewApplied(L: Store, R: Store, accept: Event -> bool, id: string)
    requires WellKeyed(L) && WellKeyed(R) && |L.Keys| <= 500 && |R.Keys| <= 500 && id in R && id !in L && accept(R[id])
    ensures R[id] in Applied(L, R, accept) && Arrives(Applied(L, R, accept), id)
  {
    hide Wanted, RowSet, WellKeyed, RowLess;
    var keep := e => Wanted(L, R, e);
    RowsFit(R);
    FilterShorter(Rows(R), keep);
    assert Page(L, R) == Filter(Rows(R), keep);
    RowIn(R, id);
    WantedWhenFew(L, R, id);
    FilterMembers(Rows(R), keep, R[id]);
    AppliedRows(L, R, accept);
    var i :| 0 <= i < |Applied(L, R, accept)| && Applied(L, R, accept)[i] == R[id];
  }

  lemma RowIn(R: Store, id: string)
    requires WellKeyed(R) && id in R
    ensures R[id] in RowSet(R) && R[id] in Rows(R) && R[id].id == id
  {
  }
}
