/**
 Paged anti-entropy: what one request asks for, what one page answers, and what
 a whole pull leaves the requester holding.
 */
module EventSync {
  import opened Ordering
  import opened EventLog

  const PAGE_SIZE := 500
  const MAX_PAGES := 200
  const MAX_KNOWN_IDS := 500

  function Take<T>(s: seq<T>, n: nat): seq<T> {
    if |s| <= n then s else s[..n]
  }

  // ----- the request and its answer -----

  /** The known-id list of a request: left out when empty or above the size limit. */
  datatype Known = Unlisted | Listed(ids: set<string>)

  function KnownIds(ids: set<string>): Known {
    if ids == {} || |ids| > MAX_KNOWN_IDS then Unlisted else Listed(ids)
  }

  datatype Request = Request(cursors: map<string, int>, gaps: map<string, seq<Range>>, known: Known)

  /** The responder holds several events at this author and sequence. */
  predicate IsMulti(rows: seq<Event>, author: string, s: int) {
    exists i, j :: 0 <= i < j < |rows| && rows[i].author == author == rows[j].author && rows[i].seq_ == s == rows[j].seq_
  }

  /** The filter of the listing query. */
  predicate Passes(req: Request, rows: seq<Event>, e: Event) {
    && !(req.known.Listed? && e.id in req.known.ids)
    && (|| e.author !in req.cursors || e.seq_ > req.cursors[e.author]
        || InGaps(e.seq_, RangesOf(req.gaps, e.author))
        || IsMulti(rows, e.author, e.seq_)
        || (req.known.Listed? && |req.known.ids| <= 500))
  }

  /** The sequences the rows hold more than once. */
  method MultiSeqs(rows: seq<Event>) returns (multi: set<(string, int)>)
    ensures forall a, s :: (a, s) in multi <==> IsMulti(rows, a, s)
  {
    multi := {};
    var seen: set<(string, int)> := {};
    for i := 0 to |rows|
      invariant forall a, s :: (a, s) in seen <==> Holds(rows[..i], a, s)
      invariant forall a, s :: (a, s) in multi <==> IsMulti(rows[..i], a, s)
    {
      var key := (rows[i].author, rows[i].seq_);
      forall a, s
        ensures Holds(rows[..i + 1], a, s) <==> Holds(rows[..i], a, s) || (a, s) == key
        ensures IsMulti(rows[..i + 1], a, s) <==> IsMulti(rows[..i], a, s) || ((a, s) == key && Holds(rows[..i], a, s))
      {
        PrefixPlus(rows, i, a, s);
        MultiPlus(rows, i, a, s);
      }
      if key in seen {
        multi := multi + {key};
      }
      seen := seen + {key};
    }
    assert rows[..|rows|] == rows;
  }

  lemma MultiPlus(rows: seq<Event>, i: nat, a: string, s: int)
    requires i < |rows|
    ensures IsMulti(rows[..i + 1], a, s) <==>
      IsMulti(rows[..i], a, s) || (rows[i].author == a && rows[i].seq_ == s && Holds(rows[..i], a, s))
  {
  }

  /** One page: the first rows that pass, in row order, up to the limit. */
  method ListEventsAfterCursor(rows: seq<Event>, req: Request, limit: int) returns (page: seq<Event>)
    ensures page == Take(Filter(rows, e => Passes(req, rows, e)), if limit <= 0 then 500 else limit)
  {
    var max := if limit <= 0 then 500 else limit;
    var multi := MultiSeqs(rows);
    ghost var keep := e => Passes(req, rows, e);
    page := [];
    for i := 0 to |rows|
      invariant page == Filter(rows[..i], keep) && |page| < max
    {
      var e := rows[i];
      FilterPlus(rows[..i], e, keep);
      assert rows[..i + 1] == rows[..i] + [e];
      if req.known.Listed? && e.id in req.known.ids {
        continue;
      }
      var isNew := e.author !in req.cursors || e.seq_ > req.cursors[e.author];
      var isGap := InGapsLoop(e.seq_, RangesOf(req.gaps, e.author));
      var isConflict := (e.author, e.seq_) in multi;
      if !isNew && !isGap && !isConflict {
        if req.known.Listed? && |req.known.ids| <= 500 {
          isConflict := true;
        }
      }
      if !isNew && !isGap && !isConflict {
        continue;
      }
      page := page + [e];
      if |page| >= max {
        FilterPrefix(rows, i + 1, keep);
        return;
      }
    }
    assert rows[..|rows|] == rows;
  }

  lemma {:induction false} FilterPrefix<T>(s: seq<T>, k: nat, keep: T -> bool)
    requires k <= |s|
    ensures Filter(s[..k], keep) <= Filter(s, keep)
  {
    if k > 0 {
      FilterPrefix(s[1..], k - 1, keep);
      assert s[..k][1..] == s[1..][..k - 1];
    }
  }

  // ----- what a request built from a store asks for -----

  /** `req` is what a node holding `rows` sends. */
  ghost predicate IsRequest(req: Request, rows: seq<Event>, ids: set<string>) {
    AreCursors(req.cursors, rows) && AreGaps(req.gaps, rows) && req.known == KnownIds(ids)
  }

  /**
   Cursor plus gaps is exact: an event passes on its sequence alone exactly when
   the requester holds nothing at that author and sequence, provided the sequence
   is positive or above everything it holds of that author.
   */
  lemma NewOrGapExactly(req: Request, rows: seq<Event>, e: Event)
    requires AreCursors(req.cursors, rows) && AreGaps(req.gaps, rows)
    ensures (e.author !in req.cursors || e.seq_ > req.cursors[e.author] || InGaps(e.seq_, RangesOf(req.gaps, e.author)))
      <==> !Holds(rows, e.author, e.seq_) && (e.seq_ >= 1 || !HasAbove(rows, e.author, e.seq_))
  {
  }

  // ----- convergence -----

  /** Ids name one event across both stores, and no author reuses a sequence. */
  ghost predicate Compatible(L: Store, R: Store) {
    && WellKeyed(L) && WellKeyed(R)
    && (forall i, j :: i in L && j in R && i == j ==> Strip(L[i]) == Strip(R[j]))
    && (forall i, j :: i in L && j in R && L[i].author == R[j].author && L[i].seq_ == R[j].seq_ ==> i == j)
    && (forall i, j :: i in R && j in R && R[i].author == R[j].author && R[i].seq_ == R[j].seq_ ==> i == j)
  }

  ghost predicate Positive(R: Store) {
    forall id :: id in R ==> R[id].seq_ >= 1
  }

  ghost function Missing(L: Store, R: Store): set<Event> {
    set id | id in R && id !in L :: R[id]
  }

  lemma HoldsIff(L: Store, a: string, s: int)
    requires WellKeyed(L)
    ensures Holds(Rows(L), a, s) <==> exists id :: id in L && L[id].author == a && L[id].seq_ == s
  {
    var rows := Rows(L);
    if Holds(rows, a, s) {
      var i :| 0 <= i < |rows| && rows[i].author == a && rows[i].seq_ == s;
      assert rows[i] in rows;
      assert rows[i] in RowSet(L);
    }
    if id :| id in L && L[id].author == a && L[id].seq_ == s {
      assert L[id] in RowSet(L);
      assert L[id] in rows;
    }
  }

  lemma NoMulti(R: Store, L: Store, a: string, s: int)
    requires Compatible(L, R)
    ensures !IsMulti(Rows(R), a, s)
  {
    var rows := Rows(R);
    forall i, j | 0 <= i < j < |rows| && rows[i].author == rows[j].author && rows[i].seq_ == rows[j].seq_ ensures false {
      assert rows[i] in rows && rows[j] in rows;
      assert rows[i] in RowSet(R) && rows[j] in RowSet(R);
      assert rows[i].id == rows[j].id;
      assert RowLess(rows[i], rows[j]);
      StrIrreflexive(rows[i].id);
    }
  }

  /** What the filter means in terms of the two stores, for any request the requester can build. */
  ghost predicate Wanted(L: Store, R: Store, e: Event)
    requires WellKeyed(L) && WellKeyed(R)
  {
    var known := KnownIds(L.Keys);
    && !(known.Listed? && e.id in known.ids)
    && (|| (!Holds(Rows(L), e.author, e.seq_) && (e.seq_ >= 1 || !HasAbove(Rows(L), e.author, e.seq_)))
        || IsMulti(Rows(R), e.author, e.seq_)
        || known.Listed?)
  }

  lemma {:induction false} FilterSame<T(!new)>(s: seq<T>, p: T -> bool, q: T -> bool)
    requires forall x :: x in s ==> p(x) == q(x)
    ensures Filter(s, p) == Filter(s, q)
  {
    if s != [] { FilterSame(s[1..], p, q); }
  }

  /** The page a responder holding `R` returns to a requester holding `L`. */
  ghost function Page(L: Store, R: Store): seq<Event>
    requires WellKeyed(L) && WellKeyed(R)
  {
    Take(Filter(Rows(R), e => Wanted(L, R, e)), PAGE_SIZE)
  }

  /** What the listing query answers to a request. */
  ghost function Answer(R: Store, req: Request): seq<Event>
    requires WellKeyed(R)
  {
    Take(Filter(Rows(R), e => Passes(req, Rows(R), e)), PAGE_SIZE)
  }

  /** The listing query answers any request built from `L` with exactly that page. */
  lemma PageOfRequest(L: Store, R: Store, req: Request)
    requires WellKeyed(L) && WellKeyed(R) && IsRequest(req, Rows(L), L.Keys)
    ensures Answer(R, req) == Page(L, R)
  {
    var p, q := e => Passes(req, Rows(R), e), e => Wanted(L, R, e);
    forall e ensures p(e) == q(e) { NewOrGapExactly(req, Rows(L), e); }
    FilterSame(Rows(R), p, q);
  }

  /** Without conflicts the filter is exactly set difference: a row is wanted when its id is not held. */
  lemma WantedExactlyMissing(L: Store, R: Store, id: string)
    requires Compatible(L, R) && Positive(R) && id in R
    ensures Wanted(L, R, R[id]) <==> id !in L
  {
    var e := R[id];
    HoldsIff(L, e.author, e.seq_);
    NoMulti(R, L, e.author, e.seq_);
    if id in L { assert Strip(L[id]) == Strip(e); }
  }

  ghost function MissingRows(L: Store, R: Store): (rows: seq<Event>)
    requires WellKeyed(R)
    ensures Enumerates(rows, Missing(L, R), RowLess) && |rows| == |Missing(L, R)|
  {
    RowLessTotal(Missing(L, R));
    Enumerate(Missing(L, R), RowLess)
  }

  /** A page is the first rows, in order, of those the requester is missing. */
  lemma PageIsMissing(L: Store, R: Store)
    requires Compatible(L, R) && Positive(R)
    ensures Page(L, R) == Take(MissingRows(L, R), PAGE_SIZE)
  {
    var keep := e => Wanted(L, R, e);
    var listing := Filter(Rows(R), keep);
    FilterAscending(Rows(R), keep, RowLess);
    forall e ensures e in listing <==> e in Missing(L, R) {
      FilterMembers(Rows(R), keep, e);
      assert e in Rows(R) <==> e in RowSet(R);
      if e in RowSet(R) { WantedExactlyMissing(L, R, e.id); }
    }
    RowLessTotal(Missing(L, R));
    EnumerationUnique(listing, MissingRows(L, R), Missing(L, R), RowLess);
  }

  // ----- applying a page -----

  function SaveAll(store: Store, events: seq<Event>): Store
    decreases |events|
  {
    if events == [] then store else SaveAll(Save(store, events[0].(status := "replicated")), events[1..])
  }

  ghost predicate FromBoth(L2: Store, L: Store, R: Store) {
    && WellKeyed(L2)
    && (forall id :: id in L2 ==> (id in L && Strip(L2[id]) == Strip(L[id])) || (id in R && Strip(L2[id]) == Strip(R[id])))
  }

  lemma SaveOneAdds(L: Store, R: Store, L0: Store, e: Event)
    requires WellKeyed(R) && FromBoth(L, L0, R) && e in RowSet(R)
    ensures FromBoth(Save(L, e.(status := "replicated")), L0, R)
    ensures Save(L, e.(status := "replicated")).Keys == L.Keys + {e.id}
  {
    var L1 := Save(L, e.(status := "replicated"));
    forall id | id in L1 ensures (id in L0 && Strip(L1[id]) == Strip(L0[id])) || (id in R && Strip(L1[id]) == Strip(R[id])) {
      if id in L { assert Strip(L1[id]) == Strip(L[id]); }
    }
  }

  /** Saving rows of `R` adds their ids and changes nothing but statuses. */
  lemma {:induction false} SaveAllAdds(L: Store, R: Store, L0: Store, events: seq<Event>)
    requires WellKeyed(R) && FromBoth(L, L0, R)
    requires forall e :: e in events ==> e in RowSet(R)
    ensures FromBoth(SaveAll(L, events), L0, R)
    ensures SaveAll(L, events).Keys == L.Keys + (set e | e in events :: e.id)
    decreases |events|
  {
    hide FromBoth, RowSet;
    if events != [] {
      assert events[0] in events;
      SaveOneAdds(L, R, L0, events[0]);
      SaveAllAdds(Save(L, events[0].(status := "replicated")), R, L0, events[1..]);
      assert events == [events[0]] + events[1..];
      assert (set e | e in events :: e.id) == {events[0].id} + (set e | e in events[1..] :: e.id);
    }
  }

  lemma StillCompatible(L: Store, R: Store, L2: Store)
    requires Compatible(L, R) && FromBoth(L2, L, R)
    ensures Compatible(L2, R)
  {
  }

  // ----- the pull loop -----

  /** What the requester keeps of one page. */
  ghost function Applied(L: Store, R: Store, accept: Event -> bool): seq<Event>
    requires WellKeyed(L) && WellKeyed(R)
  {
    Filter(Page(L, R), accept)
  }

  ghost function AfterPage(L: Store, R: Store, accept: Event -> bool): (L2: Store)
    requires WellKeyed(L) && WellKeyed(R)
    ensures WellKeyed(L2)
  {
    AppliedRows(L, R, accept);
    SaveAllAdds(L, R, L, Applied(L, R, accept));
    SaveAll(L, Applied(L, R, accept))
  }

  lemma AppliedRows(L: Store, R: Store, accept: Event -> bool)
    requires WellKeyed(L) && WellKeyed(R)
    ensures forall e :: e in Page(L, R) ==> e in RowSet(R)
    ensures forall e :: e in Applied(L, R, accept) <==> e in Page(L, R) && accept(e)
  {
    var keep := e => Wanted(L, R, e);
    var listing := Filter(Rows(R), keep);
    forall e | e in Page(L, R) ensures e in RowSet(R) {
      assert e in listing;
      FilterMembers(Rows(R), keep, e);
    }
    forall e ensures e in Applied(L, R, accept) <==> e in Page(L, R) && accept(e) { FilterMembers(Page(L, R), accept, e); }
  }

  /** At most `n` pages, stopping at one that adds nothing. */
  ghost function Pull(L: Store, R: Store, accept: Event -> bool, n: nat): (L2: Store)
    requires WellKeyed(L) && WellKeyed(R)
    ensures WellKeyed(L2)
    decreases n
  {
    if n == 0 || Applied(L, R, accept) == [] then L else Pull(AfterPage(L, R, accept), R, accept, n - 1)
  }

  /** One page adds exactly the accepted ones among the first missing rows. */
  lemma PageAdds(L: Store, R: Store, accept: Event -> bool)
    requires Compatible(L, R) && Positive(R)
    ensures Compatible(AfterPage(L, R, accept), R) && FromBoth(AfterPage(L, R, accept), L, R)
    ensures L.Keys <= AfterPage(L, R, accept).Keys <= L.Keys + R.Keys
    ensures forall e :: e in Missing(AfterPage(L, R, accept), R) <==>
      e in Missing(L, R) && !(e in Take(MissingRows(L, R), PAGE_SIZE) && accept(e))
  {
    AppliedRows(L, R, accept);
    SaveAllAdds(L, R, L, Applied(L, R, accept));
    var L2 := AfterPage(L, R, accept);
    StillCompatible(L, R, L2);
    PageIsMissing(L, R);
    var applied := Applied(L, R, accept);
    forall e | e in Missing(L, R) ensures e.id in L2 <==> e in applied {
      if e.id in L2 {
        var f :| f in applied && f.id == e.id;
        assert f in RowSet(R);
      }
    }
  }

  // ----- what a whole pull leaves -----

  /** `L2` is a requester state reachable from `L` by pulling from `R`. */
  ghost predicate PulledFrom(L2: Store, L: Store, R: Store) {
    Compatible(L2, R) && FromBoth(L2, L, R) && L.Keys <= L2.Keys <= L.Keys + R.Keys
  }

  /** One page leaves a state reachable by pulling. */
  lemma PagePulls(L: Store, R: Store, accept: Event -> bool)
    requires Compatible(L, R) && Positive(R)
    ensures PulledFrom(AfterPage(L, R, accept), L, R)
  {
    hide Compatible, AfterPage, FromBoth, Missing;
    PageAdds(L, R, accept);
  }

  lemma PulledNothing(L: Store, R: Store)
    requires Compatible(L, R)
    ensures PulledFrom(L, L, R)
  {
  }

  lemma PulledTwice(L3: Store, L2: Store, L: Store, R: Store)
    requires PulledFrom(L3, L2, R) && PulledFrom(L2, L, R)
    ensures PulledFrom(L3, L, R)
  {
  }

  lemma {:induction false} PullKeeps(L: Store, R: Store, accept: Event -> bool, n: nat)
    requires Compatible(L, R) && Positive(R)
    ensures PulledFrom(Pull(L, R, accept, n), L, R)
    decreases n
  {
    hide Compatible, Positive, AfterPage, Applied, PulledFrom, WellKeyed;
    Keyed(L, R);
    PulledNothing(L, R);
    if n > 0 && Applied(L, R, accept) != [] {
      var L2 := AfterPage(L, R, accept);
      PagePulls(L, R, accept);
      PageCompatible(L, R, accept);
      PullKeeps(L2, R, accept, n - 1);
      PulledTwice(Pull(L2, R, accept, n - 1), L2, L, R);
    }
  }

  lemma ListsExactly(rows: seq<Event>, S: set<Event>)
    requires Enumerates(rows, S, RowLess)
    ensures forall e :: e in rows <==> e in S
  {
  }

  lemma Keyed(L: Store, R: Store)
    requires Compatible(L, R)
    ensures WellKeyed(L) && WellKeyed(R)
  {
  }

  lemma TakenSize(S: set<Event>, rows: seq<Event>, n: nat)
    requires Enumerates(rows, S, RowLess) && |rows| == |S|
    ensures |set e | e in S && e !in Take(rows, n)| == if |S| <= n then 0 else |S| - n
  {
    var page := Take(rows, n);
    var fetched := set e | e in page;
    AscendingDistinct(rows);
    DistinctSize(page);
    assert fetched <= S by { assert forall e :: e in page ==> e in rows; }
    assert (set e | e in S && e !in page) == S - fetched;
  }

  /** With everything accepted a page fetches as many missing events as fit. */
  lemma PageFetches(L: Store, R: Store, accept: Event -> bool)
    requires Compatible(L, R) && Positive(R) && forall e :: e in RowSet(R) ==> accept(e)
    ensures |Missing(AfterPage(L, R, accept), R)| ==
      if |Missing(L, R)| <= PAGE_SIZE then 0 else |Missing(L, R)| - PAGE_SIZE
    ensures Applied(L, R, accept) == [] <==> Missing(L, R) == {}
  {
    hide Compatible, Positive, AfterPage, Page, Applied, MissingRows, RowLess, Rows, Enumerates;
    Keyed(L, R);
    var rows := MissingRows(L, R);
    assert forall e :: e in rows <==> e in Missing(L, R) by { ListsExactly(rows, Missing(L, R)); }
    assert forall e :: e in Missing(L, R) ==> e in RowSet(R);
    PageAdds(L, R, accept);
    assert Missing(AfterPage(L, R, accept), R) == set e | e in Missing(L, R) && e !in Take(rows, PAGE_SIZE);
    TakenSize(Missing(L, R), rows, PAGE_SIZE);
    PageIsMissing(L, R);
    AppliedRows(L, R, accept);
    assert rows != [] ==> rows[0] in Take(rows, PAGE_SIZE) && rows[0] in rows;
    assert Applied(L, R, accept) != [] ==> Applied(L, R, accept)[0] in Page(L, R);
  }

  lemma AscendingDistinct(rows: seq<Event>)
    requires Ascending(rows, RowLess)
    ensures Distinct(rows)
  {
    forall i, j | 0 <= i < j < |rows| ensures rows[i] != rows[j] {
      StrIrreflexive(rows[i].id);
      assert RowLess(rows[i], rows[j]);
    }
  }

  lemma {:induction false} DistinctSize<T>(s: seq<T>)
    requires Distinct(s)
    ensures |set x | x in s| == |s|
  {
    if s != [] {
      DistinctSize(s[1..]);
      assert s == [s[0]] + s[1..];
      assert (set x | x in s) == {s[0]} + (set x | x in s[1..]);
    }
  }

  lemma PageCompatible(L: Store, R: Store, accept: Event -> bool)
    requires Compatible(L, R) && Positive(R)
    ensures Compatible(AfterPage(L, R, accept), R)
  {
    hide Compatible, AfterPage, Missing;
    PageAdds(L, R, accept);
  }

  /**
   Convergence. When the requester accepts every responder event, `n` pages leave
   exactly the missing events beyond the first `n` times 500; with no more than
   that missing, the requester ends up holding every responder event.
   */
  lemma {:induction false} PullConverges(L: Store, R: Store, accept: Event -> bool, n: nat)
    requires Compatible(L, R) && Positive(R) && forall e :: e in RowSet(R) ==> accept(e)
    ensures |Missing(Pull(L, R, accept, n), R)| ==
      if |Missing(L, R)| <= n * PAGE_SIZE then 0 else |Missing(L, R)| - n * PAGE_SIZE
    decreases n
  {
    hide Compatible, Positive, AfterPage, Applied, Missing, RowSet, WellKeyed;
    Keyed(L, R);
    if n > 0 {
      PageFetches(L, R, accept);
      if Applied(L, R, accept) != [] {
        PageCompatible(L, R, accept);
        PullConverges(AfterPage(L, R, accept), R, accept, n - 1);
      }
    }
  }

  // ----- pulls in which some events are refused -----

  /** The pull has stopped: the next page would bring nothing it accepts. */
  ghost predicate Stopped(L: Store, R: Store, accept: Event -> bool)
    requires WellKeyed(L) && WellKeyed(R)
  {
    Applied(L, R, accept) == []
  }

  /** The refused missing events that come before `e` in row order. */
  ghost function RefusedBefore(L: Store, R: Store, accept: Event -> bool, e: Event): set<Event> {
    set f | f in Missing(L, R) && !accept(f) && RowLess(f, e)
  }

  /** In an ordered listing, an element's index counts the elements before it. */
  lemma IndexIsRank(rows: seq<Event>, S: set<Event>, k: nat)
    requires TotalOn(RowLess, S) && Enumerates(rows, S, RowLess) && k < |rows|
    ensures |set f | f in S && RowLess(f, rows[k])| == k
  {
    var before := set f | f in S && RowLess(f, rows[k]);
    assert before == set f | f in rows[..k] by {
      forall f | f in before ensures f in rows[..k] {
        assert f in rows;
        var i :| 0 <= i < |rows| && rows[i] == f;
        assert rows[k] in rows;
        assert forall j :: k < j < |rows| ==> RowLess(rows[k], rows[j]);
        assert i < k;
        assert rows[..k][i] == f;
      }
      forall f | f in rows[..k] ensures f in before {
        var i :| 0 <= i < k && rows[..k][i] == f;
        assert rows[i] == f && f in rows;
      }
    }
    AscendingDistinct(rows[..k]);
    DistinctSize(rows[..k]);
  }

  lemma MissingTotal(L: Store, R: Store)
    requires Compatible(L, R)
    ensures TotalOn(RowLess, Missing(L, R))
  {
    RowLessTotal(Missing(L, R));
  }

  /** A page carries `e` exactly when fewer than a page of missing events precede it. */
  lemma OnPageByRank(L: Store, R: Store, e: Event)
    requires Compatible(L, R) && Positive(R) && e in Missing(L, R)
    ensures e in Page(L, R) <==> |set f | f in Missing(L, R) && RowLess(f, e)| < PAGE_SIZE
  {
    hide Page, RowLess, Compatible;
    Keyed(L, R);
    var rows := MissingRows(L, R);
    PageIsMissing(L, R);
    MissingTotal(L, R);
    assert e in rows;
    var k :| 0 <= k < |rows| && rows[k] == e;
    IndexIsRank(rows, Missing(L, R), k);
    AscendingDistinct(rows);
    if k < PAGE_SIZE { assert Take(rows, PAGE_SIZE)[k] == e; }
  }

  /** Refused events stay missing, and stay ahead of what they are ahead of. */
  lemma RefusedStay(L: Store, R: Store, accept: Event -> bool, e: Event)
    requires Compatible(L, R) && Positive(R)
    ensures RefusedBefore(AfterPage(L, R, accept), R, accept, e) == RefusedBefore(L, R, accept, e)
  {
    PageAdds(L, R, accept);
  }

  /** Behind a full page of refused events nothing is ever fetched; otherwise a stopped pull has fetched it. */
  lemma StoppedMeans(L: Store, R: Store, accept: Event -> bool, e: Event)
    requires Compatible(L, R) && Positive(R) && e in Missing(L, R) && accept(e)
    ensures |RefusedBefore(L, R, accept, e)| >= PAGE_SIZE ==> e in Missing(AfterPage(L, R, accept), R)
    ensures Stopped(L, R, accept) ==> |RefusedBefore(L, R, accept, e)| >= PAGE_SIZE
  {
    hide Compatible, Positive, AfterPage, Page, Applied, MissingRows, RowLess, Rows;
    Keyed(L, R);
    var before := set f | f in Missing(L, R) && RowLess(f, e);
    OnPageByRank(L, R, e);
    PageAdds(L, R, accept);
    PageIsMissing(L, R);
    AppliedRows(L, R, accept);
    SubsetSize(RefusedBefore(L, R, accept, e), before);
    if Stopped(L, R, accept) {
      StoppedRefuses(L, R, accept, e);
    }
  }

  lemma SubsetSize<T>(A: set<T>, B: set<T>)
    requires A <= B
    ensures |A| <= |B|
  {
    assert B == A + (B - A);
  }

  /** When a page is all refused, a missing event not on it has the whole page before it. */
  lemma StoppedRefuses(L: Store, R: Store, accept: Event -> bool, e: Event)
    requires Compatible(L, R) && Positive(R) && e in Missing(L, R) && accept(e) && Stopped(L, R, accept)
    ensures |RefusedBefore(L, R, accept, e)| >= PAGE_SIZE
  {
    hide Compatible, Positive, Page, Applied, MissingRows, RowLess, Rows;
    Keyed(L, R);
    var rows := MissingRows(L, R);
    var page := Take(rows, PAGE_SIZE);
    PageIsMissing(L, R);
    AppliedRows(L, R, accept);
    assert forall f :: f in page ==> f !in Applied(L, R, accept);
    assert e in rows && e !in page;
    var k :| 0 <= k < |rows| && rows[k] == e;
    assert k >= |page| by { assert forall j :: 0 <= j < |page| ==> page[j] == rows[j] && page[j] in page; }
    forall f | f in page ensures f in RefusedBefore(L, R, accept, e) {
      var i :| 0 <= i < |page| && page[i] == f;
      assert rows[i] == f && f in rows;
    }
    AscendingDistinct(rows);
    DistinctSize(page);
    SubsetSize((set f | f in page), RefusedBefore(L, R, accept, e));
  }

  lemma FetchedStaysHeld(L: Store, R: Store, accept: Event -> bool, n: nat, e: Event)
    requires Compatible(L, R) && Positive(R) && e in RowSet(R) && e !in Missing(L, R)
    ensures WellKeyed(L) && WellKeyed(R) && e.id in Pull(L, R, accept, n)
  {
    hide Pull;
    PullKeeps(L, R, accept, n);
    assert e.id in L;
  }

  /**
   Exactly what a pull that stops by itself fetches when some events are refused:
   an acceptable missing event arrives if and only if fewer than 500 refused
   missing events come before it.
   */
  lemma {:induction false} PullFetchesExactly(L: Store, R: Store, accept: Event -> bool, n: nat, e: Event)
    requires Compatible(L, R) && Positive(R) && e in Missing(L, R) && accept(e)
    requires Stopped(Pull(L, R, accept, n), R, accept)
    ensures e.id in Pull(L, R, accept, n) <==> |RefusedBefore(L, R, accept, e)| < PAGE_SIZE
    decreases n
  {
    hide Compatible, Positive, AfterPage, Applied, RefusedBefore, FromBoth, MissingRows, RowLess, WellKeyed;
    Keyed(L, R);
    StoppedMeans(L, R, accept, e);
    if n > 0 && !Stopped(L, R, accept) {
      var L2 := AfterPage(L, R, accept);
      NextRound(L, R, accept, e);
      if e in Missing(L2, R) {
        PullFetchesExactly(L2, R, accept, n - 1, e);
      } else {
        assert e in RowSet(R);
        FetchedStaysHeld(L2, R, accept, n - 1, e);
      }
    }
  }

  lemma NextRound(L: Store, R: Store, accept: Event -> bool, e: Event)
    requires Compatible(L, R) && Positive(R)
    ensures Compatible(AfterPage(L, R, accept), R)
    ensures RefusedBefore(AfterPage(L, R, accept), R, accept, e) == RefusedBefore(L, R, accept, e)
  {
    hide AfterPage;
    PageAdds(L, R, accept);
    RefusedStay(L, R, accept, e);
  }

  // ----- both directions -----

  ghost function Stripped(store: Store): map<string, Event> {
    map id | id in store :: Strip(store[id])
  }

  /** The store holds this event, whatever its replication status. */
  predicate HasRow(store: Store, e: Event) {
    e.id in store && Strip(store[e.id]) == Strip(e)
  }

  lemma AllHeld(L: Store, R: Store)
    requires WellKeyed(R) && |Missing(L, R)| == 0
    ensures R.Keys <= L.Keys
  {
    MissingIds(L, R);
    assert R.Keys - L.Keys == {};
    assert forall id :: id in R.Keys && id !in L.Keys ==> id in R.Keys - L.Keys;
  }

  /** There are as many missing events as missing ids. */
  lemma {:induction false} MissingIds(L: Store, R: Store)
    requires WellKeyed(R)
    ensures |Missing(L, R)| == |R.Keys - L.Keys|
    decreases |R.Keys - L.Keys|
  {
    var ids := R.Keys - L.Keys;
    if ids == {} {
      assert Missing(L, R) == {};
    } else {
      var id :| id in ids;
      var L2 := L[id := R[id]];
      assert R.Keys - L2.Keys == ids - {id};
      MissingIds(L2, R);
      OneFewerMissing(L, R, id);
    }
  }

  lemma OneFewerMissing(L: Store, R: Store, id: string)
    requires WellKeyed(R) && id in R && id !in L
    ensures Missing(L[id := R[id]], R) == Missing(L, R) - {R[id]} && R[id] in Missing(L, R)
  {
  }

  lemma SameRows(R1: Store, L1: Store)
    requires Compatible(R1, L1) && R1.Keys == L1.Keys
    ensures Stripped(L1) == Stripped(R1)
  {
  }

  // ----- the program -----

  class EventStore {
    var rows: Store

    constructor ()
      ensures rows == map[]
    {
      rows := map[];
    }

    method SaveEvent(e: Event)
      modifies this
      ensures rows == Save(old(rows), e)
    {
      var e1 := e;
      if e1.status == "" {
        e1 := e1.(status := "local");
      }
      if e1.id in rows {
        rows := rows[e1.id := rows[e1.id].(status := e1.status)];
      } else {
        rows := rows[e1.id := e1];
      }
    }

    /** SELECT * ORDER BY author, seq, id. */
    method SelectOrdered() returns (result: seq<Event>)
      requires WellKeyed(rows)
      ensures result == Rows(rows)
    {
      var listed: seq<Event> := [];
      var left := rows.Keys;
      while left != {}
        invariant left <= rows.Keys
        invariant forall e :: e in listed <==> e.id in rows.Keys - left && rows[e.id] == e
        invariant Distinct(listed)
        decreases left
      {
        var id :| id in left;
        listed := listed + [rows[id]];
        left := left - {id};
      }
      assert forall e :: e in listed <==> e in RowSet(rows);
      result := Sort(listed, RowLess);
      RowLessTotal(RowSet(rows));
      SortEnumerates(listed, RowSet(rows), RowLess);
      EnumerationUnique(result, Rows(rows), RowSet(rows), RowLess);
    }

    /** The request a node sends: its cursors, its gaps, and its ids when they are few. */
    method BuildRequest() returns (req: Request)
      requires WellKeyed(rows)
      ensures IsRequest(req, Rows(rows), rows.Keys)
      ensures req.known == if 0 < |rows.Keys| <= 500 then Listed(rows.Keys) else Unlisted
    {
      var ordered := SelectOrdered();
      OrderedIsGrouped(ordered);
      var cursors := AuthorCursors(ordered);
      var gaps := AuthorGaps(ordered);
      req := Request(cursors, gaps, KnownIds(rows.Keys));
    }

    /** The responder's side of one round trip: store what is pushed, answer with a page. */
    method HandleSync(req: Request, push: seq<Event>, accept: Event -> bool) returns (page: seq<Event>)
      requires WellKeyed(rows)
      modifies this
      ensures rows == SaveAll(old(rows), Filter(push, accept)) && WellKeyed(rows)
      ensures page == Answer(rows, req)
    {
      hide Rows, Passes, WellKeyed;
      var applied := ApplyAll(push, accept);
      var ordered := SelectOrdered();
      page := ListEventsAfterCursor(ordered, req, PAGE_SIZE);
    }

    /** Stores the events that pass `accept`, counting them. */
    method ApplyAll(events: seq<Event>, accept: Event -> bool) returns (applied: nat)
      requires WellKeyed(rows)
      modifies this
      ensures rows == SaveAll(old(rows), Filter(events, accept)) && WellKeyed(rows)
      ensures applied == |Filter(events, accept)|
    {
      applied := 0;
      for i := 0 to |events|
        invariant WellKeyed(rows)
        invariant SaveAll(rows, Filter(events[i..], accept)) == SaveAll(old(rows), Filter(events, accept))
        invariant applied + |Filter(events[i..], accept)| == |Filter(events, accept)|
      {
        var e := events[i];
        FilterFrom(events, i, accept);
        if accept(e) {
          SaveEvent(e.(status := "replicated"));
          applied := applied + 1;
        }
      }
    }

    /** One round trip: request, answer, store; reports whether it brought anything. */
    method SyncPage(peer: EventStore, push: seq<Event>, accept: Event -> bool, acceptAtPeer: Event -> bool) returns (progress: bool)
      requires this != peer && WellKeyed(rows) && WellKeyed(peer.rows)
      modifies this, peer
      ensures WellKeyed(rows) && WellKeyed(peer.rows)
      ensures peer.rows == SaveAll(old(peer.rows), Filter(push, acceptAtPeer))
      ensures rows == SaveAll(old(rows), Filter(Page(old(rows), peer.rows), accept))
      ensures progress <==> Filter(Page(old(rows), peer.rows), accept) != []
    {
      hide Rows, Page, SaveAll, WellKeyed, IsRequest;
      var req := BuildRequest();
      var pulled := peer.HandleSync(req, push, acceptAtPeer);
      PageOfRequest(rows, peer.rows, req);
      var applied := ApplyAll(pulled, accept);
      progress := !(|pulled| == 0 || applied == 0);
    }

    /**
     Pages until a page brings nothing, at most 200 times; local events are pushed with
     the first. `served` requests are answered and the next one fails, before or after
     the peer has handled it.
     */
    method SyncWithPeer(peer: EventStore, push: seq<Event>, accept: Event -> bool, acceptAtPeer: Event -> bool, served: nat, handled: bool)
      requires this != peer && WellKeyed(rows) && WellKeyed(peer.rows)
      modifies this, peer
      ensures WellKeyed(rows) && WellKeyed(peer.rows)
      ensures peer.rows ==
        if served > 0 || handled then SaveAll(old(peer.rows), Filter(push, acceptAtPeer)) else old(peer.rows)
      ensures rows == Pull(old(rows), peer.rows, accept, if served < MAX_PAGES then served else MAX_PAGES)
    {
      hide Page, Pull, SaveAll, WellKeyed;
      ghost var R := SaveAll(peer.rows, Filter(push, acceptAtPeer));
      ghost var cap := if served < MAX_PAGES then served else MAX_PAGES;
      for page := 0 to MAX_PAGES
        invariant WellKeyed(rows) && WellKeyed(peer.rows) && page <= cap
        invariant page == 0 ==> rows == old(rows) && peer.rows == old(peer.rows)
        invariant page > 0 ==> peer.rows == R && Pull(rows, R, accept, cap - page) == Pull(old(rows), R, accept, cap)
      {
        ghost var L := rows;
        NothingSaved(R);
        NothingSaved(L);
        if page == served {
          if handled {
            var req := BuildRequest();
            var lost := peer.HandleSync(req, if page == 0 then push else [], acceptAtPeer);
          }
          PullNothing(rows, peer.rows, accept);
          return;
        }
        var progress := SyncPage(peer, if page == 0 then push else [], accept, acceptAtPeer);
        PullStep(L, R, accept, cap - page);
        if !progress {
          return;
        }
      }
      PullNothing(rows, R, accept);
    }

    /** The events of this node that were not yet offered to a peer. */
    method PendingLocalEvents() returns (pending: seq<Event>)
      requires WellKeyed(rows)
      ensures forall e :: e in pending <==> e in RowSet(rows) && e.status == "local"
    {
      var all := SelectOrdered();
      pending := [];
      for i := 0 to |all|
        invariant forall e :: e in pending <==> e in all[..i] && e.status == "local"
      {
        assert all[..i + 1] == all[..i] + [all[i]];
        if all[i].status == "local" {
          pending := pending + [all[i]];
        }
      }
      assert all[..|all|] == all;
    }

    /** Offered events count as replicated from now on; nothing but statuses changes. */
    method MarkReplicated(pushed: seq<Event>)
      requires WellKeyed(rows)
      modifies this
      ensures WellKeyed(rows) && rows.Keys == old(rows).Keys && Stripped(rows) == Stripped(old(rows))
      ensures forall id :: id in rows ==>
        rows[id] == if Names(pushed, id) then old(rows)[id].(status := "replicated") else old(rows)[id]
    {
      for i := 0 to |pushed|
        invariant WellKeyed(rows) && rows.Keys == old(rows).Keys
        invariant forall id :: id in rows ==>
          rows[id] == if Names(pushed[..i], id) then old(rows)[id].(status := "replicated") else old(rows)[id]
      {
        var id := pushed[i].id;
        assert pushed[..i + 1] == pushed[..i] + [pushed[i]];
        forall x ensures Names(pushed[..i + 1], x) <==> Names(pushed[..i], x) || x == id {
          NamesPlus(pushed[..i], pushed[i], x);
        }
        if id in rows {
          SaveEvent(rows[id].(status := "replicated"));
        }
      }
      assert pushed[..|pushed|] == pushed;
      assert forall id :: id in rows ==> Strip(rows[id]) == Strip(old(rows)[id]);
    }

    /** A sync with one peer: local events are offered and the peer's pulled; returns what was offered. */
    method SyncCommunityEvents(peer: EventStore, accept: Event -> bool, acceptAtPeer: Event -> bool) returns (push: seq<Event>)
      requires this != peer && WellKeyed(rows) && WellKeyed(peer.rows)
      modifies this, peer
      ensures WellKeyed(rows) && WellKeyed(peer.rows) && forall e :: e in push ==> e in RowSet(old(rows))
      ensures peer.rows == SaveAll(old(peer.rows), Filter(push, acceptAtPeer))
      ensures Stripped(rows) == Stripped(Pull(old(rows), peer.rows, accept, MAX_PAGES))
    {
      push := PendingLocalEvents();
      SyncWithPeer(peer, push, accept, acceptAtPeer, MAX_PAGES, false);
      MarkReplicated(push);
    }
  }

  predicate Names(events: seq<Event>, id: string) {
    exists i :: 0 <= i < |events| && events[i].id == id
  }

  lemma NamesPlus(events: seq<Event>, e: Event, id: string)
    ensures Names(events + [e], id) <==> Names(events, id) || e.id == id
  {
    if e.id == id { assert (events + [e])[|events|].id == id; }
    if Names(events, id) {
      var i :| 0 <= i < |events| && events[i].id == id;
      assert (events + [e])[i].id == id;
    }
  }

  lemma NothingSaved(store: Store)
    ensures SaveAll(store, []) == store
  {
  }

  lemma PullNothing(L: Store, R: Store, accept: Event -> bool)
    requires WellKeyed(L) && WellKeyed(R)
    ensures Pull(L, R, accept, 0) == L
  {
  }

  lemma FilterFrom<T>(s: seq<T>, i: nat, keep: T -> bool)
    requires i < |s|
    ensures Filter(s[i..], keep) == (if keep(s[i]) then [s[i]] else []) + Filter(s[i + 1..], keep)
    ensures !keep(s[i]) ==> Filter(s[i..], keep) == Filter(s[i + 1..], keep)
  {
  }

  lemma PullStep(L: Store, R: Store, accept: Event -> bool, n: nat)
    requires WellKeyed(L) && WellKeyed(R) && n > 0
    ensures Filter(Page(L, R), accept) == [] ==> Pull(L, R, accept, n) == L
    ensures Filter(Page(L, R), accept) != [] ==>
      var L2 := SaveAll(L, Filter(Page(L, R), accept));
      WellKeyed(L2) && Pull(L, R, accept, n) == Pull(L2, R, accept, n - 1)
  {
    hide Page;
    var L2 := AfterPage(L, R, accept);
    assert L2 == SaveAll(L, Filter(Page(L, R), accept));
  }

  lemma OrderedIsGrouped(rows: seq<Event>)
    requires Ascending(rows, RowLess)
    ensures Grouped(rows)
  {
    forall i, j, k | 0 <= i < j < k < |rows| && rows[i].author == rows[k].author ensures rows[j].author == rows[i].author {
      assert RowLess(rows[i], rows[j]) && RowLess(rows[j], rows[k]);
      if rows[j].author != rows[i].author { StrAsymmetric(rows[i].author, rows[j].author); }
    }
  }
}
