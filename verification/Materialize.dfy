/**
 The view of a room computed from its event log: messages with their edits,
 deletions and moderation applied, the channel list, and the authors whose log
 diverged. The specification is a function of the set of events alone.
 */
module Materialize {
  import opened Basics
  import opened Ordering
  import opened EventLog
  import opened Decimals

  datatype ChannelPayload = ChannelPayload(name: string, description: string)

  /** The content sanitizer and the JSON decoder of channel payloads, which the view only calls. */
  datatype Env = Env(sanitize: string -> string, decode: string -> Option<ChannelPayload>)

  datatype MessageView = MessageView(
    id: string,
    room: string,
    channel: string,
    author: string,
    seq_: int,
    content: string,
    timestamp: int,
    edited: bool,
    deleted: bool,
    tombstoned: bool,
    reason: string,
    status: string)

  datatype Announcement = Announcement(
    id: string,
    room: string,
    name: string,
    description: string,
    author: string,
    createdAt: int)

  datatype Result = Result(
    messages: seq<MessageView>,
    channels: seq<Announcement>,
    deletedChannels: seq<string>,
    conflictedAuthors: seq<string>)

  // ----- which events count -----

  /** Ids are hashes of what they name, so equal ids mean equal events. */
  ghost predicate IdsDetermine(E: set<Event>) {
    forall e, f :: e in E && f in E && e.id == f.id ==> e == f
  }

  predicate SameSlot(e: Event, f: Event) {
    e.author == f.author && e.seq_ == f.seq_
  }

  /** Of the events an author published under one sequence, the one with the smallest id. */
  ghost predicate Wins(e: Event, E: set<Event>) {
    e in E && forall f :: f in E && SameSlot(e, f) ==> e.id == f.id || StrLess(e.id, f.id)
  }

  ghost function Winners(E: set<Event>): set<Event> {
    set e | e in E && Wins(e, E)
  }

  ghost predicate Diverged(a: string, E: set<Event>) {
    exists e, f :: e in E && f in E && SameSlot(e, f) && e.id != f.id && e.author == a
  }

  ghost function Conflicted(E: set<Event>): set<string> {
    set e | e in E && Diverged(e.author, E) :: e.author
  }

  /** Timestamp, then author sequence, then id. */
  predicate EventLess(a: Event, b: Event) {
    if a.timestamp != b.timestamp then a.timestamp < b.timestamp
    else if a.seq_ != b.seq_ then a.seq_ < b.seq_
    else StrLess(a.id, b.id)
  }

  lemma EventLessTotal(S: set<Event>)
    requires IdsDetermine(S)
    ensures TotalOn(EventLess, S)
  {
    forall x | x in S ensures !EventLess(x, x) { StrIrreflexive(x.id); }
    forall x, y | x in S && y in S && x != y ensures EventLess(x, y) || EventLess(y, x) { StrTotal(x.id, y.id); }
    forall x, y, z | x in S && y in S && z in S && EventLess(x, y) && EventLess(y, z) ensures EventLess(x, z) {
      if x.timestamp == y.timestamp == z.timestamp && x.seq_ == y.seq_ == z.seq_ { StrTransitive(x.id, y.id, z.id); }
    }
  }

  lemma StrLessTotal(S: set<string>)
    ensures TotalOn(StrLess, S)
  {
    forall x | x in S ensures !StrLess(x, x) { StrIrreflexive(x); }
    forall x, y | x in S && y in S && x != y ensures StrLess(x, y) || StrLess(y, x) { StrTotal(x, y); }
    forall x, y, z | x in S && y in S && z in S && StrLess(x, y) && StrLess(y, z) ensures StrLess(x, z) {
      StrTransitive(x, y, z);
    }
  }

  // ----- the fold -----

  datatype Acc = Acc(messages: seq<MessageView>, channels: seq<Announcement>, seen: set<string>, deleted: set<string>)

  const EMPTY := Acc([], [], {}, {})

  function NewMessage(env: Env, e: Event): MessageView {
    MessageView(e.id, e.room, e.channel, e.author, e.seq_, env.sanitize(e.content), e.timestamp,
                false, false, false, "", if e.status == "" then "replicated" else e.status)
  }

  /** What an edit, deletion or tombstone does to the message it targets. */
  function Amend(env: Env, m: MessageView, e: Event): MessageView {
    match e.kind
    case Edit =>
      if m.author == e.author && !m.deleted && !m.tombstoned
      then m.(content := env.sanitize(e.content), edited := true) else m
    case Delete =>
      if m.author == e.author && !m.tombstoned
      then m.(deleted := true, content := "[Message deleted by author]") else m
    case Tombstone =>
      m.(tombstoned := true, reason := e.content, content := "[Message removed by room moderator: " + e.content + "]")
    case _ => m
  }

  function IndexOf(messages: seq<MessageView>, id: string): (i: nat)
    ensures i <= |messages| && (i < |messages| ==> messages[i].id == id)
    ensures forall j :: 0 <= j < i ==> messages[j].id != id
  {
    if messages == [] || messages[0].id == id then 0 else 1 + IndexOf(messages[1..], id)
  }

  function Step(env: Env, acc: Acc, e: Event): Acc {
    match e.kind
    case Channel =>
      if e.channel in acc.seen then acc else
      (match env.decode(e.content)
       case None => acc
       case Some(p) =>
         if p.name == "" then acc else
         acc.(seen := acc.seen + {e.channel},
              channels := acc.channels + [Announcement(e.channel, e.room, p.name, p.description, e.author, e.timestamp)]))
    case ChannelDelete => acc.(deleted := acc.deleted + {e.channel})
    case Message => acc.(messages := acc.messages + [NewMessage(env, e)])
    case Other(_) => acc
    case _ =>
      var i := IndexOf(acc.messages, e.target);
      if i < |acc.messages| then acc.(messages := acc.messages[i := Amend(env, acc.messages[i], e)]) else acc
  }

  function Fold(env: Env, acc: Acc, events: seq<Event>): Acc
    decreases |events|
  {
    if events == [] then acc else Fold(env, Step(env, acc, events[0]), events[1..])
  }

  function Live(channels: seq<Announcement>, deleted: set<string>): seq<Announcement> {
    if channels == [] then []
    else (if channels[0].id in deleted then [] else [channels[0]]) + Live(channels[1..], deleted)
  }

  /** The view of a set of events. */
  ghost function View(env: Env, E: set<Event>): Result
    requires IdsDetermine(E)
  {
    EventLessTotal(Winners(E));
    var acc := Fold(env, EMPTY, Enumerate(Winners(E), EventLess));
    StrLessTotal(acc.deleted);
    StrLessTotal(Conflicted(E));
    Result(acc.messages, Live(acc.channels, acc.deleted), Enumerate(acc.deleted, StrLess), Enumerate(Conflicted(E), StrLess))
  }

  // ----- the key of an author's sequence -----

  function SeqKey(author: string, s: int): string {
    author + ":" + FormatInt(s)
  }

  /** The text key separates different author and sequence pairs, colons in author names included. */
  lemma SeqKeyInjective(a: string, s: int, b: string, t: int)
    requires SeqKey(a, s) == SeqKey(b, t)
    ensures a == b && s == t
  {
    var x, y := FormatInt(s), FormatInt(t);
    var k := SeqKey(a, s);
    FormatIntPlain(s);
    FormatIntPlain(t);
    assert |x| == |y| by {
      assert k[|k| - |x| - 1] == ':' && k[|k| - |y| - 1] == ':';
      assert forall i :: |k| - |y| <= i < |k| ==> k[i] == y[i - (|k| - |y|)];
      assert forall i :: |k| - |x| <= i < |k| ==> k[i] == x[i - (|k| - |x|)];
    }
    assert a == k[..|a|] && b == k[..|b|];
    assert x == k[|a| + 1..] && y == k[|b| + 1..];
    FormatIntInjective(s, t);
  }

  // ----- the program -----

  ghost function Elems(events: seq<Event>): set<Event> {
    set e | e in events
  }

  function KeyOf(e: Event): string {
    SeqKey(e.author, e.seq_)
  }

  lemma SameKeySameSlot(e: Event, f: Event)
    ensures KeyOf(e) == KeyOf(f) <==> SameSlot(e, f)
  {
    if KeyOf(e) == KeyOf(f) { SeqKeyInjective(e.author, e.seq_, f.author, f.seq_); }
  }

  /** The table holds, under each key in use, the winner among the events seen. */
  ghost predicate HoldsWinners(bySeq: map<string, Event>, P: set<Event>) {
    && (forall k :: k in bySeq ==> k == KeyOf(bySeq[k]) && Wins(bySeq[k], P))
    && (forall e :: e in P ==> KeyOf(e) in bySeq)
  }

  lemma FirstInSlot(bySeq: map<string, Event>, P: set<Event>, e: Event)
    requires HoldsWinners(bySeq, P) && KeyOf(e) !in bySeq
    ensures HoldsWinners(bySeq[KeyOf(e) := e], P + {e}) && Conflicted(P + {e}) == Conflicted(P)
  {
    forall f | f in P ensures !SameSlot(e, f) { SameKeySameSlot(e, f); }
    var bySeq2 := bySeq[KeyOf(e) := e];
    forall k | k in bySeq2 ensures k == KeyOf(bySeq2[k]) && Wins(bySeq2[k], P + {e}) {
      if k != KeyOf(e) { assert Wins(bySeq[k], P); }
    }
    forall a ensures Diverged(a, P + {e}) <==> Diverged(a, P) {
      if Diverged(a, P + {e}) {
        var x, y :| x in P + {e} && y in P + {e} && SameSlot(x, y) && x.id != y.id && x.author == a;
        assert x in P && y in P;
      }
    }
    SameConflicts(P, e);
  }

  lemma SameConflicts(P: set<Event>, e: Event)
    requires forall a :: Diverged(a, P + {e}) <==> Diverged(a, P)
    ensures Conflicted(P + {e}) == Conflicted(P)
  {
  }

  lemma ContestedSlot(bySeq: map<string, Event>, P: set<Event>, e: Event)
    requires HoldsWinners(bySeq, P) && KeyOf(e) in bySeq && bySeq[KeyOf(e)].id != e.id
    ensures HoldsWinners(if StrLess(e.id, bySeq[KeyOf(e)].id) then bySeq[KeyOf(e) := e] else bySeq, P + {e})
  {
    var w := bySeq[KeyOf(e)];
    assert Wins(w, P);
    SameKeySameSlot(w, e);
    StrTotal(e.id, w.id);
    NewWinner(w, P, e);
    var bySeq2 := if StrLess(e.id, w.id) then bySeq[KeyOf(e) := e] else bySeq;
    forall k | k in bySeq2 ensures k == KeyOf(bySeq2[k]) && Wins(bySeq2[k], P + {e}) {
      if k != KeyOf(e) {
        assert Wins(bySeq[k], P);
        SameKeySameSlot(bySeq[k], e);
      }
    }
  }

  lemma ConflictFound(P: set<Event>, w: Event, e: Event)
    requires w in P && SameSlot(w, e) && w.id != e.id
    ensures Conflicted(P + {e}) == Conflicted(P) + {e.author}
  {
  }

  lemma NewWinner(w: Event, P: set<Event>, e: Event)
    requires Wins(w, P) && SameSlot(w, e) && w.id != e.id && (StrLess(e.id, w.id) || StrLess(w.id, e.id))
    ensures Wins(if StrLess(e.id, w.id) then e else w, P + {e})
  {
    if StrLess(e.id, w.id) {
      forall f | f in P + {e} && SameSlot(e, f) ensures e.id == f.id || StrLess(e.id, f.id) {
        if f != e && w.id != f.id { StrTransitive(e.id, w.id, f.id); }
      }
    }
  }

  lemma WinnersAreValues(bySeq: map<string, Event>, P: set<Event>)
    requires HoldsWinners(bySeq, P) && IdsDetermine(P)
    ensures forall e :: e in Winners(P) <==> KeyOf(e) in bySeq && bySeq[KeyOf(e)] == e
  {
    forall e ensures e in Winners(P) <==> KeyOf(e) in bySeq && bySeq[KeyOf(e)] == e {
      if e in Winners(P) {
        var w := bySeq[KeyOf(e)];
        assert Wins(w, P) && Wins(e, P);
        SameKeySameSlot(w, e);
        if w.id != e.id {
          StrAsymmetric(w.id, e.id);
        }
      }
    }
  }

  /** A new id enters its slot, or contests it and the smaller id stays. */
  method Consider(bySeq: map<string, Event>, conflicted: set<string>, e: Event, ghost P: set<Event>)
      returns (bySeq2: map<string, Event>, conflicted2: set<string>)
    requires HoldsWinners(bySeq, P) && conflicted == Conflicted(P)
    requires forall f :: f in P ==> f.id != e.id
    ensures HoldsWinners(bySeq2, P + {e}) && conflicted2 == Conflicted(P + {e})
  {
    hide HoldsWinners, Conflicted;
    bySeq2, conflicted2 := bySeq, conflicted;
    var key := KeyOf(e);
    if key !in bySeq {
      FirstInSlot(bySeq, P, e);
      bySeq2 := bySeq[key := e];
    } else {
      HeldWins(bySeq, P, key);
      SameKeySameSlot(bySeq[key], e);
      ContestedSlot(bySeq, P, e);
      ConflictFound(P, bySeq[key], e);
      conflicted2 := conflicted + {e.author};
      if StrLess(e.id, bySeq[key].id) {
        bySeq2 := bySeq[key := e];
      }
    }
  }

  lemma HeldWins(bySeq: map<string, Event>, P: set<Event>, k: string)
    requires HoldsWinners(bySeq, P) && k in bySeq
    ensures k == KeyOf(bySeq[k]) && Wins(bySeq[k], P)
  {
  }

  lemma NothingHeld()
    ensures HoldsWinners(map[], Elems([])) && Conflicted(Elems([])) == {}
  {
  }

  /** An id seen before belongs to an event seen before. */
  lemma RepeatedId(events: seq<Event>, i: nat)
    requires IdsDetermine(Elems(events)) && i < |events| && exists f :: f in events[..i] && f.id == events[i].id
    ensures Elems(events[..i]) + {events[i]} == Elems(events[..i])
  {
  }

  /** The first pass: drop repeated ids, keep the smallest id per author and sequence. */
  method ResolveConflicts(events: seq<Event>) returns (bySeq: map<string, Event>, conflicted: set<string>)
    requires IdsDetermine(Elems(events))
    ensures HoldsWinners(bySeq, Elems(events)) && conflicted == Conflicted(Elems(events))
  {
    hide HoldsWinners, Conflicted, IdsDetermine;
    var seen: set<string> := {};
    bySeq, conflicted := map[], {};
    NothingHeld();
    for i := 0 to |events|
      invariant seen == set e | e in events[..i] :: e.id
      invariant HoldsWinners(bySeq, Elems(events[..i])) && conflicted == Conflicted(Elems(events[..i]))
    {
      var e := events[i];
      ghost var P := Elems(events[..i]);
      assert events[..i + 1] == events[..i] + [e];
      assert Elems(events[..i + 1]) == P + {e};
      if e.id in seen {
        RepeatedId(events, i);
      } else {
        bySeq, conflicted := Consider(bySeq, conflicted, e, P);
        seen := seen + {e.id};
      }
    }
    assert events[..|events|] == events;
  }

  lemma WinnersDetermined(E: set<Event>)
    requires IdsDetermine(E)
    ensures IdsDetermine(Winners(E))
  {
  }

  /** The table's events in whatever order it yields them. */
  method ListEvents(bySeq: map<string, Event>) returns (unique: seq<Event>)
    requires forall k :: k in bySeq ==> KeyOf(bySeq[k]) == k
    ensures Distinct(unique) && forall e :: e in unique <==> KeyOf(e) in bySeq && bySeq[KeyOf(e)] == e
  {
    hide KeyOf;
    unique := [];
    var keys := bySeq.Keys;
    while keys != {}
      invariant keys <= bySeq.Keys
      invariant forall e :: e in unique <==> KeyOf(e) in bySeq.Keys - keys && bySeq[KeyOf(e)] == e
      invariant Distinct(unique)
      decreases keys
    {
      var k :| k in keys;
      unique := unique + [bySeq[k]];
      keys := keys - {k};
    }
  }

  /** The second pass: list the winners, then sort them. */
  method SortWinners(bySeq: map<string, Event>, ghost E: set<Event>) returns (ordered: seq<Event>)
    requires IdsDetermine(E) && HoldsWinners(bySeq, E)
    ensures Enumerates(ordered, Winners(E), EventLess)
  {
    hide KeyOf, Winners, EventLess;
    var unique := ListEvents(bySeq);
    WinnersAreValues(bySeq, E);
    WinnersDetermined(E);
    EventLessTotal(Winners(E));
    SortEnumerates(unique, Winners(E), EventLess);
    ordered := Sort(unique, EventLess);
  }

  /** The messages' positions by id, as the table of references into the ordered list. */
  ghost predicate Indexes(index: map<string, nat>, messages: seq<MessageView>) {
    && (forall id :: id in index ==> index[id] < |messages| && messages[index[id]].id == id)
    && (forall i :: 0 <= i < |messages| ==> messages[i].id in index && index[messages[i].id] == i)
  }

  lemma IndexFinds(index: map<string, nat>, messages: seq<MessageView>, id: string)
    requires Indexes(index, messages)
    ensures id in index ==> IndexOf(messages, id) == index[id]
    ensures id !in index ==> IndexOf(messages, id) == |messages|
  {
  }

  /** One event of the third pass, with messages found through that table. */
  method FoldEvent(env: Env, acc: Acc, index: map<string, nat>, e: Event) returns (acc2: Acc, index2: map<string, nat>)
    requires Indexes(index, acc.messages) && (e.kind.Message? ==> e.id !in index)
    ensures acc2 == Step(env, acc, e) && Indexes(index2, acc2.messages)
    ensures index2 == if e.kind.Message? then index[e.id := |acc.messages|] else index
  {
    acc2, index2 := acc, index;
    match e.kind {
      case Channel =>
        if e.channel !in acc.seen {
          var decoded := env.decode(e.content);
          if decoded.Some? && decoded.value.name != "" {
            var p := decoded.value;
            acc2 := acc.(seen := acc.seen + {e.channel},
                         channels := acc.channels + [Announcement(e.channel, e.room, p.name, p.description, e.author, e.timestamp)]);
          }
        }
      case ChannelDelete =>
        acc2 := acc.(deleted := acc.deleted + {e.channel});
      case Message =>
        index2 := index[e.id := |acc.messages|];
        acc2 := acc.(messages := acc.messages + [NewMessage(env, e)]);
      case Other(_) =>
      case _ =>
        IndexFinds(index, acc.messages, e.target);
        if e.target in index {
          var k := index[e.target];
          acc2 := acc.(messages := acc.messages[k := Amend(env, acc.messages[k], e)]);
        }
    }
  }

  /** The third pass. */
  method FoldEvents(env: Env, events: seq<Event>) returns (acc: Acc)
    requires forall i, j :: 0 <= i < j < |events| ==> events[i].id != events[j].id
    ensures acc == Fold(env, EMPTY, events)
  {
    acc := EMPTY;
    var index: map<string, nat> := map[];
    for i := 0 to |events|
      invariant Fold(env, acc, events[i..]) == Fold(env, EMPTY, events)
      invariant Indexes(index, acc.messages)
      invariant forall id :: id in index ==> exists j :: 0 <= j < i && events[j].id == id
    {
      hide Step, Indexes;
      assert events[i..][0] == events[i] && events[i..][1..] == events[i + 1..];
      acc, index := FoldEvent(env, acc, index, events[i]);
    }
    assert events[|events|..] == [];
  }

  method LiveChannels(channels: seq<Announcement>, deleted: set<string>) returns (live: seq<Announcement>)
    ensures live == Live(channels, deleted)
  {
    live := [];
    for i := 0 to |channels|
      invariant live + Live(channels[i..], deleted) == Live(channels, deleted)
    {
      assert channels[i..][0] == channels[i] && channels[i..][1..] == channels[i + 1..];
      if channels[i].id !in deleted {
        live := live + [channels[i]];
      }
    }
    assert channels[|channels|..] == [];
  }

  /** The names in a set, listed in whatever order the table yields them, then sorted. */
  method SortedNames(names: set<string>) returns (sorted: seq<string>)
    ensures Enumerates(sorted, names, StrLess)
  {
    var listed: seq<string> := [];
    var left := names;
    while left != {}
      invariant left <= names && Distinct(listed)
      invariant forall x :: x in listed <==> x in names - left
      decreases left
    {
      var x :| x in left;
      assert x !in listed;
      listed := listed + [x];
      left := left - {x};
    }
    StrLessTotal(names);
    SortEnumerates(listed, names, StrLess);
    sorted := Sort(listed, StrLess);
  }

  /** The result depends on the set of events alone: not on their order, their repetition, or table order. */
  method Materialize(env: Env, events: seq<Event>) returns (r: Result)
    requires IdsDetermine(Elems(events))
    ensures r == View(env, Elems(events))
  {
    ghost var E := Elems(events);
    var bySeq, conflicted := ResolveConflicts(events);
    var ordered := SortWinners(bySeq, E);
    EventLessTotal(Winners(E));
    EnumerationUnique(ordered, Enumerate(Winners(E), EventLess), Winners(E), EventLess);
    WinnersHaveDistinctIds(ordered, E);
    var acc := FoldEvents(env, ordered);
    var channels := LiveChannels(acc.channels, acc.deleted);
    var withdrawn := SortedNames(acc.deleted);
    var authors := SortedNames(conflicted);
    StrLessTotal(acc.deleted);
    StrLessTotal(conflicted);
    EnumerationUnique(withdrawn, Enumerate(acc.deleted, StrLess), acc.deleted, StrLess);
    EnumerationUnique(authors, Enumerate(conflicted, StrLess), conflicted, StrLess);
    r := Result(acc.messages, channels, withdrawn, authors);
  }

  lemma WinnersHaveDistinctIds(ordered: seq<Event>, E: set<Event>)
    requires IdsDetermine(E) && Enumerates(ordered, Winners(E), EventLess)
    ensures forall i, j :: 0 <= i < j < |ordered| ==> ordered[i].id != ordered[j].id
  {
    forall i, j | 0 <= i < j < |ordered| ensures ordered[i].id != ordered[j].id {
      assert ordered[i] in ordered && ordered[j] in ordered;
      assert EventLess(ordered[i], ordered[j]);
      StrIrreflexive(ordered[i].id);
    }
  }
}
