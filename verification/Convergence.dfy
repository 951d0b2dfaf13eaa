/** Two nodes that have synced with each other show the same room. */
module Convergence {
  import opened Ordering
  import opened EventLog
  import opened EventSync
  import opened Materialize
  import opened MaterializeTheorems

  /** Neither store contradicts the other or itself, and all sequences are positive. */
  ghost predicate Agreeable(L: Store, R: Store) {
    Compatible(L, R) && Compatible(R, L) && Positive(L) && Positive(R)
  }

  /** `X` holds what `A` holds and some of what `B` holds, up to status. */
  ghost predicate Merged(X: Store, A: Store, B: Store) {
    FromBoth(X, A, B) && A.Keys <= X.Keys <= A.Keys + B.Keys
  }

  /** Rows of either store under one author and sequence, wherever they came from, carry one id. */
  lemma SameSlotSameId(L: Store, R: Store, X: Store, Y: Store, i: string, j: string)
    requires Agreeable(L, R) && FromBoth(X, L, R) && FromBoth(Y, L, R)
    requires i in X && j in Y && X[i].author == Y[j].author && X[i].seq_ == Y[j].seq_
    ensures i == j
  {
    hide WellKeyed, Positive;
  }

  lemma SameIdSameRow(L: Store, R: Store, X: Store, Y: Store, i: string)
    requires Agreeable(L, R) && FromBoth(X, L, R) && FromBoth(Y, L, R) && i in X && i in Y
    ensures Strip(X[i]) == Strip(Y[i])
  {
    hide WellKeyed, Positive;
  }

  lemma MergedPositive(L: Store, R: Store, X: Store)
    requires Positive(L) && Positive(R) && FromBoth(X, L, R)
    ensures Positive(X)
  {
    hide WellKeyed;
    forall id | id in X ensures X[id].seq_ >= 1 {
      assert X[id].seq_ == Strip(X[id]).seq_;
    }
  }

  lemma MergedCompatible(L: Store, R: Store, X: Store, Y: Store)
    requires Agreeable(L, R) && FromBoth(X, L, R) && FromBoth(Y, L, R)
    ensures Compatible(X, Y) && Positive(Y)
  {
    hide Agreeable, FromBoth, WellKeyed, Positive;
    FromKeyed(X, L, R);
    FromKeyed(Y, L, R);
    FromAgreeable(L, R);
    AgreeablePositive(L, R);
    MergedPositive(L, R, Y);
    forall i | i in X && i in Y ensures Strip(X[i]) == Strip(Y[i]) { SameIdSameRow(L, R, X, Y, i); }
    forall i, j | i in X && j in Y && X[i].author == Y[j].author && X[i].seq_ == Y[j].seq_ ensures i == j {
      SameSlotSameId(L, R, X, Y, i, j);
    }
    forall i, j | i in Y && j in Y && Y[i].author == Y[j].author && Y[i].seq_ == Y[j].seq_ ensures i == j {
      SameSlotSameId(L, R, Y, Y, i, j);
    }
  }

  lemma AgreeablePositive(L: Store, R: Store)
    requires Agreeable(L, R)
    ensures Positive(L) && Positive(R)
  {
  }

  lemma MergedAgreeable(L: Store, R: Store, X: Store, Y: Store)
    requires Agreeable(L, R) && FromBoth(X, L, R) && FromBoth(Y, L, R)
    ensures Agreeable(X, Y)
  {
    hide Agreeable, Compatible, FromBoth;
    MergedCompatible(L, R, X, Y);
    MergedCompatible(L, R, Y, X);
    assert Agreeable(X, Y) by { Agree(X, Y); }
  }

  lemma Agree(X: Store, Y: Store)
    requires Compatible(X, Y) && Compatible(Y, X) && Positive(X) && Positive(Y)
    ensures Agreeable(X, Y)
  {
  }

  /** A push leaves the receiver with some of the sender's rows besides its own. */
  lemma PushMerges(R: Store, L: Store, push: seq<Event>, accept: Event -> bool)
    requires WellKeyed(R) && WellKeyed(L) && forall e :: e in push ==> e in RowSet(L)
    ensures Merged(SaveAll(R, Filter(push, accept)), R, L)
  {
    var kept := Filter(push, accept);
    forall e | e in kept ensures e in RowSet(L) { FilterMembers(push, accept, e); }
    SaveAllAdds(R, L, R, kept);
  }

  /** Rows taken from either of two stores that were themselves made from `L` and `R` come from `L` and `R`. */
  lemma FromSources(X: Store, A: Store, B: Store, L: Store, R: Store)
    requires FromBoth(X, A, B) && FromBoth(A, L, R) && FromBoth(B, L, R)
    ensures FromBoth(X, L, R)
  {
  }

  lemma FromSelf(L: Store, R: Store)
    requires WellKeyed(L) && WellKeyed(R)
    ensures FromBoth(L, L, R) && FromBoth(R, L, R)
  {
  }

  /** Equal rows up to status come from the same sources. */
  lemma SameSources(X: Store, Y: Store, A: Store, B: Store)
    requires FromBoth(X, A, B) && WellKeyed(Y) && Stripped(X) == Stripped(Y)
    ensures FromBoth(Y, A, B) && X.Keys == Y.Keys
  {
    assert Stripped(X).Keys == X.Keys && Stripped(Y).Keys == Y.Keys;
    forall id | id in Y ensures Strip(Y[id]) == Strip(X[id]) { assert Stripped(Y)[id] == Stripped(X)[id]; }
  }

  ghost predicate AcceptsBoth(accept: Event -> bool, L: Store, R: Store) {
    forall e :: HasRow(L, e) || HasRow(R, e) ==> accept(e)
  }

  lemma AcceptsAll(accept: Event -> bool, L: Store, R: Store, X: Store)
    requires AcceptsBoth(accept, L, R) && FromBoth(X, L, R)
    ensures forall e :: e in RowSet(X) ==> accept(e)
  {
    forall e | e in RowSet(X) ensures accept(e) { assert HasRow(L, e) || HasRow(R, e); }
  }

  /** A pull between stores made from `L` and `R`, with no more missing than the page cap carries. */
  lemma PullCompletes(L: Store, R: Store, A: Store, B: Store, accept: Event -> bool)
    requires Agreeable(L, R) && FromBoth(A, L, R) && FromBoth(B, L, R) && AcceptsBoth(accept, L, R)
    requires WellKeyed(A) && WellKeyed(B) && |B.Keys - A.Keys| <= MAX_PAGES * PAGE_SIZE
    ensures var A1 := Pull(A, B, accept, MAX_PAGES);
      FromBoth(A1, L, R) && A1.Keys == A.Keys + B.Keys
  {
    hide Pull, Agreeable, FromBoth, Compatible, Positive, Missing;
    MergedAgreeable(L, R, A, B);
    FromAgreeable(A, B);
    AcceptsAll(accept, L, R, B);
    MissingIds(A, B);
    PullConverges(A, B, accept, MAX_PAGES);
    PullKeeps(A, B, accept, MAX_PAGES);
    var A1 := Pull(A, B, accept, MAX_PAGES);
    AllHeld(A1, B);
    FromSources(A1, A, B, L, R);
  }

  lemma FromAgreeable(A: Store, B: Store)
    requires Agreeable(A, B)
    ensures Compatible(A, B) && Positive(B) && WellKeyed(A) && WellKeyed(B)
  {
  }

  ghost predicate RowsOf(push: seq<Event>, store: Store) {
    forall e :: e in push ==> e in RowSet(store)
  }

  lemma NoMoreMissing(X: set<string>, L: set<string>, R: set<string>)
    requires X <= L + R
    ensures |X - L| <= |R - L|
  {
    assert X - L <= R - L;
    SubsetSize(X - L, R - L);
  }

  /** The store after the peer's events were offered. */
  ghost function Offered(R: Store, push: seq<Event>, accept: Event -> bool): Store {
    SaveAll(R, Filter(push, accept))
  }

  /** What is offered to one of two stores made from `L` and `R` comes from `L` and `R`. */
  lemma OfferMerges(L: Store, R: Store, A: Store, B: Store, push: seq<Event>, accept: Event -> bool)
    requires FromBoth(A, L, R) && FromBoth(B, L, R) && RowsOf(push, B)
    ensures var X := Offered(A, push, accept);
      WellKeyed(X) && FromBoth(X, L, R) && A.Keys <= X.Keys <= A.Keys + B.Keys
  {
    FromKeyed(A, L, R);
    FromKeyed(B, L, R);
    PushMerges(A, B, push, accept);
    FromSources(Offered(A, push, accept), A, B, L, R);
  }

  /**
   Two syncs, one in each direction, each offering rows of its own side and pulling
   the other's: both stores end with all events of both, equal up to status. `A1` is
   the first node's store when the second sync begins, in which statuses may differ.
   */
  lemma BothSyncsAgree(L: Store, R: Store, pushL: seq<Event>, pushR: seq<Event>, A1: Store, acceptL: Event -> bool, acceptR: Event -> bool)
    requires Agreeable(L, R) && AcceptsBoth(acceptL, L, R) && AcceptsBoth(acceptR, L, R) && WellKeyed(L) && WellKeyed(R)
    requires |R.Keys - L.Keys| <= MAX_PAGES * PAGE_SIZE && |L.Keys - R.Keys| <= MAX_PAGES * PAGE_SIZE
    requires RowsOf(pushL, L) && WellKeyed(A1)
    requires var R0 := Offered(R, pushL, acceptR);
      WellKeyed(R0) && Stripped(A1) == Stripped(Pull(L, R0, acceptL, MAX_PAGES)) && RowsOf(pushR, R0)
    ensures var R0 := Offered(R, pushL, acceptR);
      var A2 := Offered(A1, pushR, acceptL);
      && WellKeyed(A2)
      && var R2 := Pull(R0, A2, acceptR, MAX_PAGES);
         A2.Keys == R2.Keys == L.Keys + R.Keys && Stripped(A2) == Stripped(R2)
  {
    hide Pull, Agreeable, AcceptsBoth, Offered, FromBoth, WellKeyed, RowsOf, Stripped;
    FromSelf(L, R);
    var R0 := Offered(R, pushL, acceptR);
    OfferMerges(L, R, R, L, pushL, acceptR);
    FirstPull(L, R, R0, A1, acceptL);
    var A2 := Offered(A1, pushR, acceptL);
    OfferMerges(L, R, A1, R0, pushR, acceptL);
    KeysWithin(A2.Keys, A1.Keys, R0.Keys);
    SecondPull(L, R, R0, A2, acceptR);
  }

  lemma KeysWithin(X: set<string>, A: set<string>, B: set<string>)
    requires A <= X <= A + B && B <= A
    ensures X == A
  {
  }

  lemma FirstPull(L: Store, R: Store, R0: Store, A1: Store, accept: Event -> bool)
    requires Agreeable(L, R) && AcceptsBoth(accept, L, R) && WellKeyed(L) && WellKeyed(R0) && WellKeyed(A1)
    requires FromBoth(L, L, R) && FromBoth(R0, L, R) && R.Keys <= R0.Keys <= R.Keys + L.Keys
    requires |R.Keys - L.Keys| <= MAX_PAGES * PAGE_SIZE
    requires Stripped(A1) == Stripped(Pull(L, R0, accept, MAX_PAGES))
    ensures FromBoth(A1, L, R) && A1.Keys == L.Keys + R.Keys && R0.Keys <= A1.Keys
  {
    hide Pull, Agreeable, AcceptsBoth, FromBoth, WellKeyed, Stripped;
    hide SaveAll, Missing;
    KeysMissing(L, R, R0);
    PullCompletes(L, R, L, R0, accept);
    SameSources(Pull(L, R0, accept, MAX_PAGES), A1, L, R);
    KeysAdded(L.Keys, R.Keys, R0.Keys);
  }

  lemma KeysMissing(L: Store, R: Store, R0: Store)
    requires R.Keys <= R0.Keys <= R.Keys + L.Keys
    ensures |R0.Keys - L.Keys| <= |R.Keys - L.Keys|
  {
    NoMoreMissing(R0.Keys, L.Keys, R.Keys);
  }

  lemma KeysAdded(L: set<string>, R: set<string>, X: set<string>)
    requires R <= X <= R + L
    ensures L + X == L + R && X <= L + R
  {
  }

  lemma KeysLeft(L: set<string>, R: set<string>, X: set<string>, Y: set<string>)
    requires R <= X && X <= Y == L + R
    ensures |Y - X| <= |L - R| && X + Y == Y
  {
    assert Y - X <= L - R;
    SubsetSize(Y - X, L - R);
  }

  lemma SecondPull(L: Store, R: Store, R0: Store, A2: Store, accept: Event -> bool)
    requires Agreeable(L, R) && AcceptsBoth(accept, L, R) && WellKeyed(R0) && WellKeyed(A2)
    requires FromBoth(R0, L, R) && FromBoth(A2, L, R) && R.Keys <= R0.Keys && R0.Keys <= A2.Keys == L.Keys + R.Keys
    requires |L.Keys - R.Keys| <= MAX_PAGES * PAGE_SIZE
    ensures var R2 := Pull(R0, A2, accept, MAX_PAGES);
      A2.Keys == R2.Keys && Stripped(A2) == Stripped(R2)
  {
    hide Pull, Agreeable, AcceptsBoth, FromBoth, WellKeyed, Stripped;
    KeysLeft(L.Keys, R.Keys, R0.Keys, A2.Keys);
    PullCompletes(L, R, R0, A2, accept);
    var R2 := Pull(R0, A2, accept, MAX_PAGES);
    MergedAgreeable(L, R, R2, A2);
    EqualRows(R2, A2);
  }

  lemma FromKeyed(X: Store, A: Store, B: Store)
    requires FromBoth(X, A, B)
    ensures WellKeyed(X)
  {
  }

  lemma EqualRows(X: Store, Y: Store)
    requires Agreeable(X, Y) && X.Keys == Y.Keys
    ensures Stripped(X) == Stripped(Y)
  {
    SameRows(X, Y);
  }

  lemma RowsDetermine(store: Store)
    requires WellKeyed(store)
    ensures IdsDetermine(RowSet(store))
  {
  }

  lemma StrippedRows(A: Store, B: Store)
    requires A.Keys == B.Keys && Stripped(A) == Stripped(B)
    ensures StripSet(RowSet(A)) <= StripSet(RowSet(B))
  {
    forall x | x in StripSet(RowSet(A)) ensures x in StripSet(RowSet(B)) {
      var e :| e in RowSet(A) && Strip(e) == x;
      var id :| id in A && A[id] == e;
      assert Stripped(A)[id] == Stripped(B)[id];
      assert B[id] in RowSet(B);
    }
  }

  /** Stores that agree up to status show the same room up to status. */
  lemma SameStoresSameView(env: Env, A: Store, B: Store)
    requires WellKeyed(A) && WellKeyed(B) && A.Keys == B.Keys && Stripped(A) == Stripped(B)
    ensures IdsDetermine(RowSet(A)) && IdsDetermine(RowSet(B))
    ensures StripResult(View(env, RowSet(A))) == StripResult(View(env, RowSet(B)))
  {
    hide View;
    RowsDetermine(A);
    RowsDetermine(B);
    StrippedRows(A, B);
    StrippedRows(B, A);
    SameEventsSameView(env, RowSet(A), RowSet(B));
  }

  /**
   Anti-entropy end to end, as the two nodes run it: when each side accepts the
   other's events, no author reused a sequence, and no more is missing than the page
   cap carries, then after a sync from each side, pushes included, both hold all
   events of both and compute the same view of the room, up to the status each shows
   beside a message.
   */
  method SyncBothWays(a: EventStore, b: EventStore, acceptA: Event -> bool, acceptB: Event -> bool, ghost env: Env)
    requires a != b && Agreeable(a.rows, b.rows) && WellKeyed(a.rows) && WellKeyed(b.rows)
    requires AcceptsBoth(acceptA, a.rows, b.rows) && AcceptsBoth(acceptB, a.rows, b.rows)
    requires |b.rows.Keys - a.rows.Keys| <= MAX_PAGES * PAGE_SIZE && |a.rows.Keys - b.rows.Keys| <= MAX_PAGES * PAGE_SIZE
    modifies a, b
    ensures a.rows.Keys == b.rows.Keys == old(a.rows).Keys + old(b.rows).Keys
    ensures IdsDetermine(RowSet(a.rows)) && IdsDetermine(RowSet(b.rows))
    ensures StripResult(View(env, RowSet(a.rows))) == StripResult(View(env, RowSet(b.rows)))
  {
    hide Agreeable, AcceptsBoth, WellKeyed, Pull, SaveAll, View, RowSet, Stripped;
    ghost var L, R := a.rows, b.rows;
    var pushA := a.SyncCommunityEvents(b, acceptA, acceptB);
    ghost var A1, R0 := a.rows, b.rows;
    assert RowsOf(pushA, L) && R0 == Offered(R, pushA, acceptB);
    var pushB := b.SyncCommunityEvents(a, acceptB, acceptA);
    assert RowsOf(pushB, R0) && a.rows == Offered(A1, pushB, acceptA);
    BothSyncsAgree(L, R, pushA, pushB, A1, acceptA, acceptB);
    StrippedKeys(b.rows, Pull(R0, a.rows, acceptB, MAX_PAGES));
    SameStoresSameView(env, a.rows, b.rows);
  }

  lemma StrippedKeys(A: Store, B: Store)
    requires Stripped(A) == Stripped(B)
    ensures A.Keys == B.Keys
  {
    assert Stripped(A).Keys == A.Keys && Stripped(B).Keys == B.Keys;
  }
}
