/**
 What the view of a set of events means: who wins each author's sequence, which
 authors are reported, what each message finally shows, and that nothing but the
 displayed status depends on how an event reached this node.
 */
module MaterializeTheorems {
  import opened Ordering
  import opened EventLog
  import opened Materialize

  // ----- winners and conflicts -----

  /** Every author and sequence in use has exactly one winner, whose id is the smallest there. */
  lemma {:induction false} SlotHasOneWinner(E: set<Event>, e: Event) returns (w: Event)
    requires IdsDetermine(E) && e in E
    ensures w in Winners(E) && SameSlot(e, w)
    ensures forall v :: v in Winners(E) && SameSlot(e, v) ==> v == w
    decreases |set f | f in E && SameSlot(e, f) && StrLess(f.id, e.id)|
  {
    var below := set f | f in E && SameSlot(e, f) && StrLess(f.id, e.id);
    if below == {} {
      w := e;
      forall f | f in E && SameSlot(e, f) ensures e.id == f.id || StrLess(e.id, f.id) {
        StrTotal(e.id, f.id);
        assert f !in below;
      }
    } else {
      var f :| f in below;
      var below2 := set g | g in E && SameSlot(f, g) && StrLess(g.id, f.id);
      StrIrreflexive(f.id);
      forall g | g in below2 ensures g in below { StrTransitive(g.id, f.id, e.id); }
      assert f !in below2;
      SmallerSet(below2, below, f);
      w := SlotHasOneWinner(E, f);
    }
    forall v | v in Winners(E) && SameSlot(e, v) ensures v == w {
      assert Wins(v, E) && Wins(w, E);
      if v.id != w.id { StrAsymmetric(v.id, w.id); }
    }
  }

  lemma SmallerSet<T>(A: set<T>, B: set<T>, x: T)
    requires A <= B && x in B && x !in A
    ensures |A| < |B|
  {
    assert B == A + (B - A);
    assert x in B - A;
  }

  /** The reported authors are exactly those with two different events under one sequence. */
  lemma ConflictedExactly(env: Env, E: set<Event>, a: string)
    requires IdsDetermine(E)
    ensures a in View(env, E).conflictedAuthors <==> Diverged(a, E)
  {
  }

  // ----- what a message shows -----

  /** All amendments to one message, in event order. */
  function AmendAll(env: Env, m: MessageView, events: seq<Event>): MessageView
    decreases |events|
  {
    if events == [] then m
    else AmendAll(env, if events[0].target == m.id then Amend(env, m, events[0]) else m, events[1..])
  }

  function AmendEach(env: Env, ms: seq<MessageView>, events: seq<Event>): (r: seq<MessageView>)
    ensures |r| == |ms| && forall i :: 0 <= i < |ms| ==> r[i] == AmendAll(env, ms[i], events)
  {
    seq(|ms|, i requires 0 <= i < |ms| => AmendAll(env, ms[i], events))
  }

  /** Each message event with the amendments that follow it. */
  function Transcript(env: Env, events: seq<Event>): seq<MessageView> {
    if events == [] then [] else
    var head := if events[0].kind.Message? then [AmendAll(env, NewMessage(env, events[0]), events[1..])] else [];
    head + Transcript(env, events[1..])
  }

  ghost predicate FreshIds(ms: seq<MessageView>, events: seq<Event>) {
    && (forall i, j :: 0 <= i < j < |ms| ==> ms[i].id != ms[j].id)
    && (forall i, j :: 0 <= i < |ms| && 0 <= j < |events| ==> ms[i].id != events[j].id)
    && (forall i, j :: 0 <= i < j < |events| ==> events[i].id != events[j].id)
  }

  lemma AmendKeepsId(env: Env, m: MessageView, e: Event)
    ensures Amend(env, m, e).id == m.id
  {
  }

  lemma StepMessages(env: Env, acc: Acc, e: Event)
    requires forall i, j :: 0 <= i < j < |acc.messages| ==> acc.messages[i].id != acc.messages[j].id
    ensures var ms := Step(env, acc, e).messages;
      if e.kind.Message? then ms == acc.messages + [NewMessage(env, e)]
      else |ms| == |acc.messages| && forall i :: 0 <= i < |ms| ==>
        ms[i] == if acc.messages[i].id == e.target then Amend(env, acc.messages[i], e) else acc.messages[i]
  {
  }

  lemma StepFreshIds(env: Env, acc: Acc, events: seq<Event>)
    requires events != [] && FreshIds(acc.messages, events)
    ensures FreshIds(Step(env, acc, events[0]).messages, events[1..])
  {
    hide Step, Amend;
    StepMessages(env, acc, events[0]);
    forall i | 0 <= i < |acc.messages| ensures Step(env, acc, events[0]).messages[i].id == acc.messages[i].id {
      AmendKeepsId(env, acc.messages[i], events[0]);
    }
  }

  lemma {:induction false} FoldMessages(env: Env, acc: Acc, events: seq<Event>)
    requires FreshIds(acc.messages, events)
    ensures Fold(env, acc, events).messages == AmendEach(env, acc.messages, events) + Transcript(env, events)
    decreases |events|
  {
    hide Step, Amend, NewMessage;
    if events == [] {
      assert AmendEach(env, acc.messages, events) == acc.messages;
    } else {
      var e, rest := events[0], events[1..];
      var acc2 := Step(env, acc, e);
      StepMessages(env, acc, e);
      StepFreshIds(env, acc, events);
      FoldMessages(env, acc2, rest);
      AmendEachStep(env, acc.messages, acc2.messages, e, rest);
    }
  }

  lemma AmendEachStep(env: Env, ms: seq<MessageView>, ms2: seq<MessageView>, e: Event, rest: seq<Event>)
    requires if e.kind.Message? then ms2 == ms + [NewMessage(env, e)]
      else |ms2| == |ms| && forall i :: 0 <= i < |ms| ==> ms2[i] == if ms[i].id == e.target then Amend(env, ms[i], e) else ms[i]
    ensures AmendEach(env, ms2, rest) ==
      AmendEach(env, ms, [e] + rest) + (if e.kind.Message? then [AmendAll(env, NewMessage(env, e), rest)] else [])
  {
  }

  /** The messages of a view are the winning message events in order, each with the amendments after it. */
  lemma MessagesAreTranscript(env: Env, E: set<Event>)
    requires IdsDetermine(E)
    ensures TotalOn(EventLess, Winners(E))
    ensures View(env, E).messages == Transcript(env, Enumerate(Winners(E), EventLess))
  {
    EventLessTotal(Winners(E));
    var ordered := Enumerate(Winners(E), EventLess);
    WinnersHaveDistinctIds(ordered, E);
    FoldMessages(env, EMPTY, ordered);
    assert AmendEach(env, EMPTY.messages, ordered) == [];
  }

  predicate Tombstones(e: Event, m: MessageView) {
    e.kind.Tombstone? && e.target == m.id
  }

  predicate Deletes(e: Event, m: MessageView) {
    e.kind.Delete? && e.target == m.id && e.author == m.author
  }

  predicate Edits(e: Event, m: MessageView) {
    e.kind.Edit? && e.target == m.id && e.author == m.author
  }

  ghost predicate Any(events: seq<Event>, p: Event -> bool) {
    exists i :: 0 <= i < |events| && p(events[i])
  }

  /** The content of the last of the author's edits, or the given text. */
  function LastEdit(env: Env, m: MessageView, events: seq<Event>, text: string): string
    decreases |events|
  {
    if events == [] then text
    else LastEdit(env, m, events[1..], if Edits(events[0], m) then env.sanitize(events[0].content) else text)
  }

  /** A message's flags say what its text shows. */
  predicate Coherent(m: MessageView) {
    && (m.tombstoned ==> m.content == "[Message removed by room moderator: " + m.reason + "]")
    && (!m.tombstoned && m.deleted ==> m.content == "[Message deleted by author]")
  }

  lemma AnyCons(events: seq<Event>, p: Event -> bool)
    requires events != []
    ensures Any(events, p) <==> p(events[0]) || Any(events[1..], p)
  {
  }

  /**
   What any message finally shows. Moderation is final whatever follows it; short
   of it a message is deleted exactly when its own author deleted it; short of both
   it shows the last of its own author's edits.
   */
  lemma {:induction false} AmendmentsMean(env: Env, m: MessageView, events: seq<Event>)
    requires Coherent(m)
    ensures var r := AmendAll(env, m, events);
      && Coherent(r) && r.id == m.id && r.author == m.author
      && (r.tombstoned <==> m.tombstoned || Any(events, e => Tombstones(e, m)))
      && (!r.tombstoned ==> (r.deleted <==> m.deleted || Any(events, e => Deletes(e, m))))
      && (!r.tombstoned && !r.deleted ==>
            && (r.edited <==> m.edited || Any(events, e => Edits(e, m)))
            && r.content == LastEdit(env, m, events, m.content))
    decreases |events|
  {
    if events != [] {
      var e := events[0];
      var m2 := if e.target == m.id then Amend(env, m, e) else m;
      AmendmentsMean(env, m2, events[1..]);
      AnyCons(events, e => Tombstones(e, m));
      AnyCons(events, e => Deletes(e, m));
      AnyCons(events, e => Edits(e, m));
      SameTests(m, m2, events[1..]);
      LastEditSame(env, m, m2, events[1..], m2.content);
      if !m2.tombstoned && !m2.deleted {
        assert m2.content == if Edits(e, m) then env.sanitize(e.content) else m.content;
      }
    }
  }

  lemma SameTests(m: MessageView, m2: MessageView, events: seq<Event>)
    requires m2.id == m.id && m2.author == m.author
    ensures Any(events, e => Tombstones(e, m)) == Any(events, e => Tombstones(e, m2))
    ensures Any(events, e => Deletes(e, m)) == Any(events, e => Deletes(e, m2))
    ensures Any(events, e => Edits(e, m)) == Any(events, e => Edits(e, m2))
  {
  }

  lemma {:induction false} LastEditSame(env: Env, m: MessageView, m2: MessageView, events: seq<Event>, text: string)
    requires m2.id == m.id && m2.author == m.author
    ensures LastEdit(env, m, events, text) == LastEdit(env, m2, events, text)
    decreases |events|
  {
    if events != [] {
      LastEditSame(env, m, m2, events[1..], if Edits(events[0], m) then env.sanitize(events[0].content) else text);
    }
  }

  // ----- replication status -----

  ghost function StripSet(E: set<Event>): set<Event> {
    set e | e in E :: Strip(e)
  }

  function StripMessage(m: MessageView): MessageView {
    m.(status := "replicated")
  }

  function StripMessages(ms: seq<MessageView>): (r: seq<MessageView>)
    ensures |r| == |ms| && forall i :: 0 <= i < |ms| ==> r[i] == StripMessage(ms[i])
  {
    seq(|ms|, i requires 0 <= i < |ms| => StripMessage(ms[i]))
  }

  function StripAcc(acc: Acc): Acc {
    acc.(messages := StripMessages(acc.messages))
  }

  /** A view with the per-node replication status removed. */
  function StripResult(r: Result): Result {
    r.(messages := StripMessages(r.messages))
  }

  function StripEvents(s: seq<Event>): (r: seq<Event>)
    ensures |r| == |s| && forall i :: 0 <= i < |s| ==> r[i] == Strip(s[i])
  {
    seq(|s|, i requires 0 <= i < |s| => Strip(s[i]))
  }

  lemma {:induction false} StripIndex(ms: seq<MessageView>, id: string)
    ensures IndexOf(StripMessages(ms), id) == IndexOf(ms, id)
  {
  }

  lemma StripStep(env: Env, acc: Acc, e: Event)
    ensures Step(env, StripAcc(acc), Strip(e)) == StripAcc(Step(env, acc, e))
  {
    StripIndex(acc.messages, e.target);
    var i := IndexOf(acc.messages, e.target);
    match e.kind {
      case Channel =>
      case ChannelDelete =>
      case Message =>
        assert StripMessages(acc.messages + [NewMessage(env, e)]) == StripMessages(acc.messages) + [NewMessage(env, Strip(e))];
      case _ =>
        if i < |acc.messages| {
          var m := Amend(env, acc.messages[i], e);
          assert StripMessages(acc.messages[i := m]) == StripMessages(acc.messages)[i := StripMessage(m)];
        }
    }
  }

  lemma {:induction false} StripFold(env: Env, acc: Acc, events: seq<Event>)
    ensures Fold(env, StripAcc(acc), StripEvents(events)) == StripAcc(Fold(env, acc, events))
    decreases |events|
  {
    if events != [] {
      StripStep(env, acc, events[0]);
      StripFold(env, Step(env, acc, events[0]), events[1..]);
      assert StripEvents(events)[1..] == StripEvents(events[1..]);
    }
  }

  lemma StripDetermines(E: set<Event>)
    requires IdsDetermine(E)
    ensures IdsDetermine(StripSet(E))
  {
  }

  lemma StripWinners(E: set<Event>)
    requires IdsDetermine(E)
    ensures Winners(StripSet(E)) == StripSet(Winners(E))
  {
  }

  lemma StripConflicted(E: set<Event>)
    ensures Conflicted(StripSet(E)) == Conflicted(E)
  {
  }

  lemma StripEnumerate(W: set<Event>)
    requires IdsDetermine(W)
    ensures TotalOn(EventLess, W) && TotalOn(EventLess, StripSet(W))
    ensures Enumerate(StripSet(W), EventLess) == StripEvents(Enumerate(W, EventLess))
  {
    hide EventLess;
    EventLessTotal(W);
    StripDetermines(W);
    EventLessTotal(StripSet(W));
    var s := Enumerate(W, EventLess);
    var t := StripEvents(s);
    forall i, j | 0 <= i < j < |t| ensures EventLess(t[i], t[j]) { StripOrder(s[i], s[j]); }
    StripListed(W, s);
    EnumerationUnique(Enumerate(StripSet(W), EventLess), t, StripSet(W), EventLess);
  }

  lemma StripOrder(a: Event, b: Event)
    ensures EventLess(Strip(a), Strip(b)) == EventLess(a, b)
  {
  }

  lemma StripListed(W: set<Event>, s: seq<Event>)
    requires forall x :: x in s <==> x in W
    ensures forall x :: x in StripEvents(s) <==> x in StripSet(W)
  {
  }

  /** Replication status reaches the view only as the messages' own status. */
  lemma StatusOnlyShows(env: Env, E: set<Event>)
    requires IdsDetermine(E)
    ensures IdsDetermine(StripSet(E)) && View(env, StripSet(E)) == StripResult(View(env, E))
  {
    StripDetermines(E);
    StripWinners(E);
    StripConflicted(E);
    StripEnumerate(Winners(E));
    var ordered := Enumerate(Winners(E), EventLess);
    StripFold(env, EMPTY, ordered);
    assert StripAcc(EMPTY) == EMPTY;
  }

  /** Two logs of the same events up to status give the same view up to status. */
  lemma SameEventsSameView(env: Env, E1: set<Event>, E2: set<Event>)
    requires IdsDetermine(E1) && IdsDetermine(E2) && StripSet(E1) == StripSet(E2)
    ensures StripResult(View(env, E1)) == StripResult(View(env, E2))
  {
    StatusOnlyShows(env, E1);
    StatusOnlyShows(env, E2);
  }
}
