/**
 What the channel list of a view means: which announcements are shown and which
 channels are reported as withdrawn, in terms of the winning events alone.
 */
module MaterializeChannels {
  import opened Ordering
  import opened EventLog
  import opened Materialize

  /** The event announces a channel under a name. */
  predicate Announces(env: Env, e: Event) {
    e.kind.Channel? && env.decode(e.content).Some? && env.decode(e.content).value.name != ""
  }

  function Announced(env: Env, e: Event): Announcement
    requires Announces(env, e)
  {
    var p := env.decode(e.content).value;
    Announcement(e.channel, e.room, p.name, p.description, e.author, e.timestamp)
  }

  /** Entry `k` is the first to announce its channel. */
  ghost predicate FirstAt(env: Env, done: seq<Event>, k: int) {
    && 0 <= k < |done| && Announces(env, done[k])
    && forall j :: 0 <= j < k && Announces(env, done[j]) ==> done[j].channel != done[k].channel
  }

  ghost predicate Shows(env: Env, done: seq<Event>, a: Announcement) {
    exists k :: FirstAt(env, done, k) && Announced(env, done[k]) == a
  }

  /** The channel part of the fold after the events `done`. */
  ghost predicate ChannelsAre(env: Env, acc: Acc, done: seq<Event>) {
    && (forall c :: c in acc.seen <==> exists k :: 0 <= k < |done| && Announces(env, done[k]) && done[k].channel == c)
    && (forall i :: 0 <= i < |acc.channels| ==> acc.channels[i].id in acc.seen)
    && (forall i, j :: 0 <= i < j < |acc.channels| ==> acc.channels[i].id != acc.channels[j].id)
    && (forall a :: a in acc.channels <==> Shows(env, done, a))
    && (forall c :: c in acc.deleted <==> exists k :: 0 <= k < |done| && done[k].kind.ChannelDelete? && done[k].channel == c)
  }

  lemma FirstAtPlus(env: Env, done: seq<Event>, e: Event, k: int)
    ensures FirstAt(env, done + [e], k) <==>
      FirstAt(env, done, k) || (k == |done| && FirstAt(env, done + [e], |done|))
  {
    assert forall j :: 0 <= j < |done| ==> (done + [e])[j] == done[j];
  }

  lemma ShowsPlus(env: Env, done: seq<Event>, e: Event, a: Announcement)
    ensures Shows(env, done + [e], a) <==>
      Shows(env, done, a) || (FirstAt(env, done + [e], |done|) && Announced(env, e) == a)
  {
    forall k ensures FirstAt(env, done + [e], k) <==> FirstAt(env, done, k) || (k == |done| && FirstAt(env, done + [e], |done|)) {
      FirstAtPlus(env, done, e, k);
    }
    if Shows(env, done, a) {
      var k :| FirstAt(env, done, k) && Announced(env, done[k]) == a;
      assert (done + [e])[k] == done[k];
    }
  }

  /** The last event is the first to announce its channel exactly when the channel was not seen before. */
  lemma NewlySeen(env: Env, acc: Acc, done: seq<Event>, e: Event)
    requires ChannelsAre(env, acc, done)
    ensures FirstAt(env, done + [e], |done|) <==> Announces(env, e) && e.channel !in acc.seen
  {
    assert forall j :: 0 <= j < |done| ==> (done + [e])[j] == done[j];
  }

  lemma StepChannels(env: Env, acc: Acc, done: seq<Event>, e: Event)
    requires ChannelsAre(env, acc, done)
    ensures ChannelsAre(env, Step(env, acc, e), done + [e])
  {
    hide FirstAt, Shows;
    var acc2, done2 := Step(env, acc, e), done + [e];
    assert forall j :: 0 <= j < |done| ==> done2[j] == done[j];
    assert done2[|done|] == e;
    NewlySeen(env, acc, done, e);
    forall a ensures Shows(env, done2, a) <==> Shows(env, done, a) || (FirstAt(env, done2, |done|) && Announced(env, e) == a) {
      ShowsPlus(env, done, e, a);
    }
    StepParts(env, acc, e);
  }

  lemma StepParts(env: Env, acc: Acc, e: Event)
    ensures var acc2 := Step(env, acc, e);
      && (Announces(env, e) && e.channel !in acc.seen ==>
            acc2.seen == acc.seen + {e.channel} && acc2.channels == acc.channels + [Announced(env, e)])
      && (!(Announces(env, e) && e.channel !in acc.seen) ==> acc2.seen == acc.seen && acc2.channels == acc.channels)
      && acc2.deleted == if e.kind.ChannelDelete? then acc.deleted + {e.channel} else acc.deleted
  {
  }

  lemma {:induction false} FoldChannels(env: Env, acc: Acc, done: seq<Event>, events: seq<Event>)
    requires ChannelsAre(env, acc, done)
    ensures ChannelsAre(env, Fold(env, acc, events), done + events)
    decreases |events|
  {
    hide ChannelsAre, Step;
    if events == [] {
      assert done + events == done;
    } else {
      StepChannels(env, acc, done, events[0]);
      FoldChannels(env, Step(env, acc, events[0]), done + [events[0]], events[1..]);
      assert (done + [events[0]]) + events[1..] == done + events;
    }
  }

  lemma {:induction false} LiveMembers(channels: seq<Announcement>, deleted: set<string>)
    requires forall i, j :: 0 <= i < j < |channels| ==> channels[i].id != channels[j].id
    ensures var live := Live(channels, deleted);
      && (forall a :: a in live <==> a in channels && a.id !in deleted)
      && (forall i, j :: 0 <= i < j < |live| ==> live[i].id != live[j].id)
  {
    if channels != [] {
      LiveMembers(channels[1..], deleted);
      assert channels == [channels[0]] + channels[1..];
      forall a | a in channels[1..] ensures a.id != channels[0].id {
        var i :| 0 <= i < |channels[1..]| && channels[1..][i] == a;
        assert channels[i + 1] == a;
      }
      var rest := Live(channels[1..], deleted);
      assert forall i :: 0 <= i < |rest| ==> rest[i] in rest;
    }
  }

  /** Of the winning announcements of its channel, `e` is the earliest. */
  ghost predicate Earliest(env: Env, E: set<Event>, e: Event) {
    && e in Winners(E) && Announces(env, e)
    && forall f :: f in Winners(E) && Announces(env, f) && f.channel == e.channel ==> f == e || EventLess(e, f)
  }

  ghost predicate AnnouncedFirst(env: Env, E: set<Event>, a: Announcement) {
    exists e :: Earliest(env, E, e) && Announced(env, e) == a
  }

  ghost predicate Withdrawn(E: set<Event>, c: string) {
    exists d :: d in Winners(E) && d.kind.ChannelDelete? && d.channel == c
  }

  lemma FirstIsEarliest(env: Env, E: set<Event>, ordered: seq<Event>, k: nat)
    requires IdsDetermine(E) && Enumerates(ordered, Winners(E), EventLess) && k < |ordered|
    ensures FirstAt(env, ordered, k) <==> Earliest(env, E, ordered[k])
  {
    hide EventLess;
    WinnersDetermined(E);
    EventLessTotal(Winners(E));
    assert ordered[k] in ordered;
    if FirstAt(env, ordered, k) {
      forall f | f in Winners(E) && Announces(env, f) && f.channel == ordered[k].channel
        ensures f == ordered[k] || EventLess(ordered[k], f)
      {
        assert f in ordered;
        var j :| 0 <= j < |ordered| && ordered[j] == f;
        assert j >= k;
      }
    }
    if Earliest(env, E, ordered[k]) {
      forall j | 0 <= j < k && Announces(env, ordered[j]) ensures ordered[j].channel != ordered[k].channel {
        assert ordered[j] in ordered && EventLess(ordered[j], ordered[k]);
      }
    }
  }

  lemma ShowsEarliest(env: Env, E: set<Event>, ordered: seq<Event>, a: Announcement)
    requires IdsDetermine(E) && Enumerates(ordered, Winners(E), EventLess)
    ensures Shows(env, ordered, a) <==> AnnouncedFirst(env, E, a)
  {
    hide Winners, EventLess, Announced;
    if Shows(env, ordered, a) {
      var k :| FirstAt(env, ordered, k) && Announced(env, ordered[k]) == a;
      FirstIsEarliest(env, E, ordered, k);
    }
    if e :| Earliest(env, E, e) && Announced(env, e) == a {
      assert e in ordered;
      var k :| 0 <= k < |ordered| && ordered[k] == e;
      FirstIsEarliest(env, E, ordered, k);
    }
  }

  lemma NoChannels(env: Env)
    ensures ChannelsAre(env, EMPTY, [])
  {
  }

  lemma WithdrawnListed(env: Env, E: set<Event>, ordered: seq<Event>, acc: Acc)
    requires Enumerates(ordered, Winners(E), EventLess) && ChannelsAre(env, acc, ordered)
    ensures forall c :: c in acc.deleted <==> Withdrawn(E, c)
  {
    hide Winners, EventLess, Shows;
    forall c ensures c in acc.deleted <==> Withdrawn(E, c) {
      if c in acc.deleted {
        var k :| 0 <= k < |ordered| && ordered[k].kind.ChannelDelete? && ordered[k].channel == c;
        assert ordered[k] in ordered;
      }
      if d :| d in Winners(E) && d.kind.ChannelDelete? && d.channel == c {
        assert d in ordered;
        var k :| 0 <= k < |ordered| && ordered[k] == d;
      }
    }
  }

  /**
   The channel list of any view. A channel is shown once, as its earliest winning
   announcement gives it, exactly when no winning event withdraws it, before or
   after; and the withdrawn channels are exactly those some winning event withdraws.
   */
  lemma ChannelsExactly(env: Env, E: set<Event>)
    requires IdsDetermine(E)
    ensures var v := View(env, E);
      && (forall a :: a in v.channels <==> AnnouncedFirst(env, E, a) && !Withdrawn(E, a.id))
      && (forall i, j :: 0 <= i < j < |v.channels| ==> v.channels[i].id != v.channels[j].id)
      && (forall c :: c in v.deletedChannels <==> Withdrawn(E, c))
  {
    hide Winners, EventLess, AnnouncedFirst, Withdrawn, Step, Live, Shows;
    WinnersDetermined(E);
    EventLessTotal(Winners(E));
    var ordered := Enumerate(Winners(E), EventLess);
    var acc := Fold(env, EMPTY, ordered);
    NoChannels(env);
    FoldChannels(env, EMPTY, [], ordered);
    assert [] + ordered == ordered;
    LiveMembers(acc.channels, acc.deleted);
    WithdrawnListed(env, E, ordered, acc);
    forall a ensures Shows(env, ordered, a) <==> AnnouncedFirst(env, E, a) {
      ShowsEarliest(env, E, ordered, a);
    }
    StrLessTotal(acc.deleted);
  }
}
