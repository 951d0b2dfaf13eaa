/** Pulls that stop with acceptable events left behind. */
module EventSyncLimits {
  import opened EventLog
  import opened EventSync
  import opened Decimals

  /** The event an author published under sequence `n`. */
  function Published(n: int): Event {
    Event(FormatInt(n), "room", "channel", "author", n, Message, "", "", 0, "", 1, "replicated")
  }

  /** A store with sequences 1 to `n` of that author. */
  function Sequence(n: nat): Store {
    if n == 0 then map[] else Sequence(n - 1)[FormatInt(n) := Published(n)]
  }

  lemma {:induction false} SequenceHolds(n: nat)
    ensures forall id :: id in Sequence(n) ==>
      1 <= Sequence(n)[id].seq_ <= n && Sequence(n)[id] == Published(Sequence(n)[id].seq_) && id == FormatInt(Sequence(n)[id].seq_)
    ensures forall k :: 1 <= k <= n ==> FormatInt(k) in Sequence(n) && Sequence(n)[FormatInt(k)] == Published(k)
  {
    hide FormatInt;
    if n > 0 {
      SequenceHolds(n - 1);
      forall k | 1 <= k < n ensures FormatInt(k) != FormatInt(n) {
        if FormatInt(k) == FormatInt(n) { FormatIntInjective(k, n); }
      }
    }
  }

  /** The events of sequences 1 to `n`. */
  function Events(n: nat): set<Event> {
    if n == 0 then {} else Events(n - 1) + {Published(n)}
  }

  lemma {:induction false} EventsSize(n: nat)
    ensures |Events(n)| == n && forall e :: e in Events(n) ==> 1 <= e.seq_ <= n && e == Published(e.seq_)
  {
    if n > 0 { EventsSize(n - 1); }
  }

  lemma SequenceCompatible(n: nat)
    ensures Compatible(map[], Sequence(n)) && Positive(Sequence(n))
  {
    hide FormatInt;
    SequenceHolds(n);
  }

  function AcceptAbove(): Event -> bool {
    (e: Event) => e.seq_ > PAGE_SIZE
  }

  /**
   A full page of refused events: an author's first 500 events are refused and all
   later ones acceptable, and a requester that holds nothing fetches nothing, however
   many pages it asks for.
   */
  lemma RefusedPageBlocks(n: nat, pages: nat)
    requires n > PAGE_SIZE
    ensures WellKeyed(Sequence(n)) && Pull(map[], Sequence(n), AcceptAbove(), pages) == map[]
    ensures exists e :: e in Missing(map[], Sequence(n)) && AcceptAbove()(e)
  {
    var R := Sequence(n);
    var accept := AcceptAbove();
    hide Sequence, Page, Missing, Published, Events, Wanted;
    SequenceCompatible(n);
    Keyed(map[], R);
    var applied := Applied(map[], R, accept);
    assert applied != [] ==> applied[0] in applied;
    forall e ensures e !in applied { BehindPage(n, e); }
    SequenceHolds(n);
    MissingAll(R);
    assert R[FormatInt(n)] in Missing(map[], R) && R[FormatInt(n)].seq_ == n by { PublishedSeq(n); }
  }

  lemma PublishedSeq(n: int)
    ensures Published(n).seq_ == n && Published(n).author == "author"
  {
  }

  lemma MissingAll(R: Store)
    ensures forall id :: id in R ==> R[id] in Missing(map[], R)
  {
  }

  /** No event above the first 500 is on the first page. */
  lemma BehindPage(n: nat, e: Event)
    requires n > PAGE_SIZE && WellKeyed(Sequence(n))
    ensures e !in Applied(map[], Sequence(n), AcceptAbove())
  {
    var R := Sequence(n);
    hide Sequence, Page, Events, FormatInt;
    SequenceCompatible(n);
    AppliedRows(map[], R, AcceptAbove());
    if e in Page(map[], R) && e.seq_ > PAGE_SIZE {
      MissingAll(R);
      assert e in Missing(map[], R);
      OnPageByRank(map[], R, e);
      EventsSize(PAGE_SIZE);
      SequenceHolds(n);
      forall f | f in Events(PAGE_SIZE) ensures f in Missing(map[], R) && RowLess(f, e) {
        assert R[FormatInt(f.seq_)] == f;
      }
      SubsetSize(Events(PAGE_SIZE), set f | f in Missing(map[], R) && RowLess(f, e));
    }
  }
}
