/**
 What a view shows, read off the fields of the events: in which order messages stand,
 which later events reach a message, and which announcement a channel is shown by.
 */
module MaterializeOrder {
  import opened Basics
  import opened Ordering
  import opened EventLog
  import opened Materialize
  import opened MaterializeTheorems
  import opened MaterializeChannels

  /** Earlier by timestamp, then by author sequence, then by id. */
  predicate Before(a: Event, b: Event) {
    || a.timestamp < b.timestamp
    || (a.timestamp == b.timestamp && a.seq_ < b.seq_)
    || (a.timestamp == b.timestamp && a.seq_ == b.seq_ && StrLess(a.id, b.id))
  }

  /** Of the events of one author and sequence, the one with the smallest id. */
  ghost predicate Winning(E: set<Event>, e: Event) {
    e in E && forall f :: f in E && f.author == e.author && f.seq_ == e.seq_ && f.id != e.id ==> StrLess(e.id, f.id)
  }

  lemma WinningIs(E: set<Event>, e: Event)
    ensures e in Winners(E) <==> Winning(E, e)
  {
    if e in Winners(E) { assert Wins(e, E); }
    if Winning(E, e) {
      forall f | f in E && SameSlot(e, f) ensures e.id == f.id || StrLess(e.id, f.id) { }
      assert Wins(e, E);
    }
  }

  /** The listing of the winning events from first to last. */
  ghost predicate Timeline(E: set<Event>, events: seq<Event>) {
    && (forall i, j :: 0 <= i < j < |events| ==> Before(events[i], events[j]))
    && (forall e :: e in events <==> Winning(E, e))
  }

  lemma LessIsBefore(a: Event, b: Event)
    ensures EventLess(a, b) <==> Before(a, b)
  {
  }

  lemma ViewTimeline(env: Env, E: set<Event>) returns (events: seq<Event>)
    requires IdsDetermine(E)
    ensures Timeline(E, events) && View(env, E).messages == Transcript(env, events)
  {
    hide Winners, Timeline, Transcript, EventLess, View, TotalOn, Enumerates;
    MessagesAreTranscript(env, E);
    events := Enumerate(Winners(E), EventLess);
    ListingIsTimeline(E, events);
  }

  lemma ListingIsTimeline(E: set<Event>, events: seq<Event>)
    requires Enumerates(events, Winners(E), EventLess)
    ensures Timeline(E, events)
  {
    hide Winners, Winning, EventLess, Before;
    forall a, b ensures EventLess(a, b) <==> Before(a, b) { LessIsBefore(a, b); }
    forall e ensures e in events <==> Winning(E, e) { WinningIs(E, e); }
  }

  lemma BeforeStrict(a: Event, b: Event)
    requires Before(a, b)
    ensures !Before(b, a) && a != b
  {
    if a.timestamp == b.timestamp && a.seq_ == b.seq_ { StrAsymmetric(a.id, b.id); }
  }

  /** What stands after place `p` of the timeline is exactly what comes after its event. */
  lemma AfterPlace(E: set<Event>, events: seq<Event>, p: nat, t: Event)
    requires Timeline(E, events) && p < |events|
    ensures t in events[p + 1..] <==> Winning(E, t) && Before(events[p], t)
  {
    hide Winning, Before;
    if t in events[p + 1..] {
      var i :| 0 <= i < |events[p + 1..]| && events[p + 1..][i] == t;
      assert events[p + 1 + i] == t && t in events;
    }
    if Winning(E, t) && Before(events[p], t) {
      assert t in events;
      var i :| 0 <= i < |events| && events[i] == t;
      BeforeStrict(events[p], t);
      assert i > p;
      assert events[p + 1..][i - p - 1] == t;
    }
  }

  // ----- the last event of a kind -----

  function IsTombstone(m: MessageView): Event -> bool {
    x => Tombstones(x, m)
  }

  function IsDeletion(m: MessageView): Event -> bool {
    x => Deletes(x, m)
  }

  function IsEdit(m: MessageView): Event -> bool {
    x => Edits(x, m)
  }

  /** Whether any event amends the message in a given way, by either name of the test. */
  lemma SameAny(events: seq<Event>, m: MessageView)
    ensures Any(events, e => Tombstones(e, m)) == Any(events, IsTombstone(m))
    ensures Any(events, e => Deletes(e, m)) == Any(events, IsDeletion(m))
    ensures Any(events, e => Edits(e, m)) == Any(events, IsEdit(m))
  {
  }

  /** The last place at which `p` holds, or -1. */
  function LastAt(events: seq<Event>, p: Event -> bool): (k: int)
    ensures -1 <= k < |events|
    ensures k >= 0 ==> p(events[k])
    ensures forall j :: k < j < |events| ==> !p(events[j])
  {
    if events == [] then -1 else
    var k := LastAt(events[1..], p);
    if k >= 0 then k + 1 else if p(events[0]) then 0 else -1
  }

  lemma {:induction false} LastEditIs(env: Env, m: MessageView, events: seq<Event>, text: string)
    ensures var k := LastAt(events, IsEdit(m));
      LastEdit(env, m, events, text) == if k < 0 then text else env.sanitize(events[k].content)
    decreases |events|
  {
    if events != [] { LastEditIs(env, m, events[1..], if Edits(events[0], m) then env.sanitize(events[0].content) else text); }
  }

  /** Amending keeps who wrote what where and when. */
  lemma {:induction false} AmendingKeeps(env: Env, m: MessageView, events: seq<Event>)
    ensures var r := AmendAll(env, m, events);
      && r.id == m.id && r.room == m.room && r.channel == m.channel && r.author == m.author && r.seq_ == m.seq_
      && r.timestamp == m.timestamp && r.status == m.status
    decreases |events|
  {
    if events != [] {
      AmendingKeeps(env, if events[0].target == m.id then Amend(env, m, events[0]) else m, events[1..]);
    }
  }

  /** The moderation reason is the last one given. */
  lemma {:induction false} ReasonIsLast(env: Env, m: MessageView, events: seq<Event>)
    ensures var k := LastAt(events, IsTombstone(m));
      AmendAll(env, m, events).reason == if k < 0 then m.reason else events[k].content
    decreases |events|
  {
    if events != [] {
      var e := events[0];
      var m2 := if e.target == m.id then Amend(env, m, e) else m;
      AmendedReason(env, m, e);
      AmendKeepsId(env, m, e);
      hide Amend;
      ReasonIsLast(env, m2, events[1..]);
      SameLast(m, m2, events[1..]);
    }
  }

  lemma AmendedReason(env: Env, m: MessageView, e: Event)
    ensures Amend(env, m, e).reason == if e.kind.Tombstone? then e.content else m.reason
  {
  }

  lemma {:induction false} SameLast(m: MessageView, m2: MessageView, events: seq<Event>)
    requires m2.id == m.id
    ensures LastAt(events, IsTombstone(m)) == LastAt(events, IsTombstone(m2))
    decreases |events|
  {
    if events != [] { SameLast(m, m2, events[1..]); }
  }

  // ----- what reaches a message -----

  ghost predicate Moderates(E: set<Event>, e: Event, t: Event) {
    Winning(E, t) && t.kind.Tombstone? && t.target == e.id && Before(e, t)
  }

  ghost predicate Withdraws(E: set<Event>, e: Event, t: Event) {
    Winning(E, t) && t.kind.Delete? && t.target == e.id && t.author == e.author && Before(e, t)
  }

  ghost predicate Rewrites(E: set<Event>, e: Event, t: Event) {
    Winning(E, t) && t.kind.Edit? && t.target == e.id && t.author == e.author && Before(e, t)
  }

  /** The message as its event has it. */
  predicate Carries(e: Event, m: MessageView) {
    && e.kind.Message? && m.id == e.id && m.room == e.room && m.channel == e.channel && m.author == e.author
    && m.seq_ == e.seq_ && m.timestamp == e.timestamp && m.status == (if e.status == "" then "replicated" else e.status)
  }

  ghost predicate LastModeration(E: set<Event>, e: Event, t: Event) {
    Moderates(E, e, t) && forall u :: Moderates(E, e, u) ==> u == t || Before(u, t)
  }

  ghost predicate LastRewrite(E: set<Event>, e: Event, t: Event) {
    Rewrites(E, e, t) && forall u :: Rewrites(E, e, u) ==> u == t || Before(u, t)
  }

  ghost predicate Moderated(E: set<Event>, e: Event, m: MessageView) {
    && (m.tombstoned <==> exists t :: Moderates(E, e, t))
    && (m.tombstoned ==> exists t :: LastModeration(E, e, t) && m.reason == t.content)
    && (m.tombstoned ==> m.content == "[Message removed by room moderator: " + m.reason + "]")
  }

  ghost predicate Authored(env: Env, E: set<Event>, e: Event, m: MessageView) {
    && (m.deleted <==> exists t :: Withdraws(E, e, t))
    && (m.deleted ==> m.content == "[Message deleted by author]")
    && (!m.deleted ==> (m.edited <==> exists t :: Rewrites(E, e, t)))
    && (!m.deleted && m.edited ==> exists t :: LastRewrite(E, e, t) && m.content == env.sanitize(t.content))
    && (!m.deleted && !m.edited ==> m.content == env.sanitize(e.content))
  }

  /** The message shown for a winning message event. */
  ghost predicate ShownFor(env: Env, E: set<Event>, e: Event, m: MessageView) {
    Winning(E, e) && Carries(e, m) && Moderated(E, e, m) && (!m.tombstoned ==> Authored(env, E, e, m))
  }

  ghost predicate ShownForSome(env: Env, E: set<Event>, m: MessageView) {
    exists e :: ShownFor(env, E, e, m)
  }

  ghost predicate Listed(env: Env, E: set<Event>, e: Event, ms: seq<MessageView>) {
    exists i :: 0 <= i < |ms| && ShownFor(env, E, e, ms[i])
  }

  /** Of the events after place `place` those that satisfy `p`. */
  ghost predicate Reaches(E: set<Event>, e: Event, p: Event -> bool, t: Event) {
    Winning(E, t) && Before(e, t) && p(t)
  }

  lemma AnyLater(E: set<Event>, events: seq<Event>, place: nat, p: Event -> bool)
    requires Timeline(E, events) && place < |events|
    ensures Any(events[place + 1..], p) <==> exists t :: Reaches(E, events[place], p, t)
  {
    hide Winning, Before, Timeline;
    var rest := events[place + 1..];
    forall t ensures t in rest <==> Winning(E, t) && Before(events[place], t) { AfterPlace(E, events, place, t); }
    if Any(rest, p) {
      var i :| 0 <= i < |rest| && p(rest[i]);
      assert rest[i] in rest && Reaches(E, events[place], p, rest[i]);
    }
    if t :| Reaches(E, events[place], p, t) {
      var i :| 0 <= i < |rest| && rest[i] == t;
      assert p(rest[i]);
    }
  }

  lemma LastLater(E: set<Event>, events: seq<Event>, place: nat, p: Event -> bool, u: Event)
    requires Timeline(E, events) && place < |events| && LastAt(events[place + 1..], p) >= 0
    ensures var t := events[place + 1..][LastAt(events[place + 1..], p)];
      && Reaches(E, events[place], p, t)
      && (Reaches(E, events[place], p, u) ==> u == t || Before(u, t))
  {
    hide Winning, Before;
    var rest := events[place + 1..];
    var k := LastAt(rest, p);
    assert rest[k] in rest;
    AfterPlace(E, events, place, rest[k]);
    AfterPlace(E, events, place, u);
    if Reaches(E, events[place], p, u) {
      var i :| 0 <= i < |rest| && rest[i] == u;
      assert i <= k;
      assert i < k ==> Before(events[place + 1 + i], events[place + 1 + k]);
    }
  }

  /** Whether any event after a place satisfies `p`, and which is the last that does. */
  lemma LaterWith(E: set<Event>, events: seq<Event>, place: nat, p: Event -> bool)
    requires Timeline(E, events) && place < |events|
    ensures Any(events[place + 1..], p) <==> exists t :: Reaches(E, events[place], p, t)
    ensures var k := LastAt(events[place + 1..], p);
      && (k >= 0 <==> Any(events[place + 1..], p))
      && (k >= 0 ==> Reaches(E, events[place], p, events[place + 1..][k]))
      && (k >= 0 ==> forall u :: Reaches(E, events[place], p, u) ==> u == events[place + 1..][k] || Before(u, events[place + 1..][k]))
  {
    hide Timeline, Reaches, Before;
    AnyLater(E, events, place, p);
    var k := LastAt(events[place + 1..], p);
    if k >= 0 {
      LastLater(E, events, place, p, events[place]);
      forall u | Reaches(E, events[place], p, u) ensures u == events[place + 1..][k] || Before(u, events[place + 1..][k]) {
        LastLater(E, events, place, p, u);
      }
    }
  }

  lemma MessageAt(env: Env, E: set<Event>, events: seq<Event>, place: nat)
    requires Timeline(E, events) && place < |events| && events[place].kind.Message?
    ensures ShownFor(env, E, events[place], AmendAll(env, NewMessage(env, events[place]), events[place + 1..]))
  {
    hide Winning, Before, AmendAll;
    var e := events[place];
    var m := NewMessage(env, e);
    var rest := events[place + 1..];
    var r := AmendAll(env, m, rest);
    assert e in events;
    AmendingKeeps(env, m, rest);
    ReasonIsLast(env, m, rest);
    SameAny(rest, m);
    AmendmentsMean(env, m, rest);
    LastEditIs(env, m, rest, m.content);
    LaterWith(E, events, place, IsTombstone(m));
    LaterWith(E, events, place, IsDeletion(m));
    LaterWith(E, events, place, IsEdit(m));
    ModeratedAt(E, e, m, rest, r);
    if !r.tombstoned { AuthoredAt(env, E, e, m, rest, r); }
  }

  /** The facts about a message and the events after it, put together. */
  lemma ModeratedAt(E: set<Event>, e: Event, m: MessageView, rest: seq<Event>, r: MessageView)
    requires m.id == e.id && m.author == e.author && !m.tombstoned
    requires r.tombstoned <==> Any(rest, IsTombstone(m))
    requires Any(rest, IsTombstone(m)) <==> exists t :: Reaches(E, e, IsTombstone(m), t)
    requires var k := LastAt(rest, IsTombstone(m));
      && (k >= 0 <==> Any(rest, IsTombstone(m)))
      && (k >= 0 ==> Reaches(E, e, IsTombstone(m), rest[k]) && r.reason == rest[k].content)
      && (k >= 0 ==> forall u :: Reaches(E, e, IsTombstone(m), u) ==> u == rest[k] || Before(u, rest[k]))
    requires Coherent(r)
    ensures Moderated(E, e, r)
  {
    hide Winning, Before;
    forall t ensures Moderates(E, e, t) <==> Reaches(E, e, IsTombstone(m), t) { }
    var k := LastAt(rest, IsTombstone(m));
    if r.tombstoned { assert LastModeration(E, e, rest[k]); }
  }

  lemma AuthoredAt(env: Env, E: set<Event>, e: Event, m: MessageView, rest: seq<Event>, r: MessageView)
    requires m.id == e.id && m.author == e.author && m.content == env.sanitize(e.content) && !r.tombstoned
    requires r.deleted <==> Any(rest, IsDeletion(m))
    requires Any(rest, IsDeletion(m)) <==> exists t :: Reaches(E, e, IsDeletion(m), t)
    requires !r.deleted ==> (r.edited <==> Any(rest, IsEdit(m)))
    requires Any(rest, IsEdit(m)) <==> exists t :: Reaches(E, e, IsEdit(m), t)
    requires var k := LastAt(rest, IsEdit(m));
      && (k >= 0 <==> Any(rest, IsEdit(m)))
      && (k >= 0 ==> Reaches(E, e, IsEdit(m), rest[k]))
      && (k >= 0 ==> forall u :: Reaches(E, e, IsEdit(m), u) ==> u == rest[k] || Before(u, rest[k]))
      && (!r.deleted ==> r.content == if k < 0 then m.content else env.sanitize(rest[k].content))
    requires Coherent(r)
    ensures Authored(env, E, e, r)
  {
    hide Winning, Before;
    forall t ensures Withdraws(E, e, t) <==> Reaches(E, e, IsDeletion(m), t) { }
    forall t ensures Rewrites(E, e, t) <==> Reaches(E, e, IsEdit(m), t) { }
    var k := LastAt(rest, IsEdit(m));
    if !r.deleted && r.edited { assert LastRewrite(E, e, rest[k]); }
  }

  // ----- the messages of a view -----

  /** The places of the message events. */
  function Places(events: seq<Event>, from: nat): seq<nat>
    requires from <= |events|
    decreases |events| - from
  {
    if from == |events| then []
    else (if events[from].kind.Message? then [from] else []) + Places(events, from + 1)
  }

  /** The message shown for the event at a place. */
  function MessageFrom(env: Env, events: seq<Event>, p: nat): MessageView
    requires p < |events|
  {
    AmendAll(env, NewMessage(env, events[p]), events[p + 1..])
  }

  ghost predicate Placed(env: Env, events: seq<Event>, from: nat, ps: seq<nat>, ms: seq<MessageView>) {
    && |ps| == |ms|
    && (forall i :: 0 <= i < |ps| ==> from <= ps[i] < |events| && events[ps[i]].kind.Message?)
    && (forall i :: 0 <= i < |ps| ==> ps[i] < |events| && ms[i] == MessageFrom(env, events, ps[i]))
    && (forall i, j :: 0 <= i < j < |ps| ==> ps[i] < ps[j])
    && (forall p :: from <= p < |events| && events[p].kind.Message? ==> p in ps)
  }

  lemma PlacedOneMore(env: Env, events: seq<Event>, from: nat, ps: seq<nat>, ms: seq<MessageView>)
    requires from < |events| && Placed(env, events, from + 1, ps, ms)
    ensures events[from].kind.Message? ==> Placed(env, events, from, [from] + ps, [MessageFrom(env, events, from)] + ms)
    ensures !events[from].kind.Message? ==> Placed(env, events, from, ps, ms)
  {
    hide MessageFrom;
  }

  lemma {:induction false} PlacesAre(env: Env, events: seq<Event>, from: nat)
    requires from <= |events|
    ensures Placed(env, events, from, Places(events, from), Transcript(env, events[from..]))
    decreases |events| - from
  {
    hide AmendAll, NewMessage, Placed;
    if from < |events| {
      PlacesAre(env, events, from + 1);
      assert events[from..][0] == events[from] && events[from..][1..] == events[from + 1..];
      PlacedOneMore(env, events, from, Places(events, from + 1), Transcript(env, events[from + 1..]));
      assert [] + Places(events, from + 1) == Places(events, from + 1);
      assert [] + Transcript(env, events[from + 1..]) == Transcript(env, events[from + 1..]);
    } else {
      NothingPlaced(env, events);
    }
  }

  lemma NothingPlaced(env: Env, events: seq<Event>)
    ensures Placed(env, events, |events|, [], Transcript(env, events[|events|..]))
  {
  }

  /**
   The messages of any view. They stand in ascending order of timestamp, author
   sequence and id. Each is shown for a winning message event and carries its fields;
   it is moderated exactly when a later winning tombstone names it, and short of that
   deleted exactly when a later winning deletion of its author does; short of both it
   shows the latest winning edit of its author, or its own text. And every winning
   message event is shown.
   */
  lemma MessagesExactly(env: Env, E: set<Event>)
    requires IdsDetermine(E)
    ensures var ms := View(env, E).messages;
      && (forall i, j :: 0 <= i < j < |ms| ==>
            || ms[i].timestamp < ms[j].timestamp
            || (ms[i].timestamp == ms[j].timestamp && ms[i].seq_ < ms[j].seq_)
            || (ms[i].timestamp == ms[j].timestamp && ms[i].seq_ == ms[j].seq_ && StrLess(ms[i].id, ms[j].id)))
      && (forall i :: 0 <= i < |ms| ==> ShownForSome(env, E, ms[i]))
      && (forall e :: Winning(E, e) && e.kind.Message? ==> Listed(env, E, e, ms))
  {
    hide View, ShownFor, Placed, Timeline, Winning, Transcript, Places;
    var events := ViewTimeline(env, E);
    var ms := View(env, E).messages;
    var ps := Places(events, 0);
    assert events[0..] == events;
    PlacesAre(env, events, 0);
    forall i | 0 <= i < |ms| ensures ShownForSome(env, E, ms[i]) {
      var e := ShownAt(env, E, events, ps, ms, i);
    }
    forall i, j | 0 <= i < j < |ms| ensures
      || ms[i].timestamp < ms[j].timestamp
      || (ms[i].timestamp == ms[j].timestamp && ms[i].seq_ < ms[j].seq_)
      || (ms[i].timestamp == ms[j].timestamp && ms[i].seq_ == ms[j].seq_ && StrLess(ms[i].id, ms[j].id))
    {
      ShownInOrder(env, E, events, ps, ms, i, j);
    }
    forall e | Winning(E, e) && e.kind.Message? ensures Listed(env, E, e, ms) {
      var i := ShownSomewhere(env, E, events, ps, ms, e);
    }
  }

  lemma ShownAt(env: Env, E: set<Event>, events: seq<Event>, ps: seq<nat>, ms: seq<MessageView>, i: nat) returns (e: Event)
    requires Timeline(E, events) && Placed(env, events, 0, ps, ms) && i < |ms|
    ensures ps[i] < |events| && e == events[ps[i]] && ShownFor(env, E, e, ms[i])
  {
    hide ShownFor, AmendAll, NewMessage, Timeline;
    e := events[ps[i]];
    MessageAt(env, E, events, ps[i]);
  }

  lemma ShownInOrder(env: Env, E: set<Event>, events: seq<Event>, ps: seq<nat>, ms: seq<MessageView>, i: nat, j: nat)
    requires Timeline(E, events) && Placed(env, events, 0, ps, ms) && i < j < |ms|
    ensures
      || ms[i].timestamp < ms[j].timestamp
      || (ms[i].timestamp == ms[j].timestamp && ms[i].seq_ < ms[j].seq_)
      || (ms[i].timestamp == ms[j].timestamp && ms[i].seq_ == ms[j].seq_ && StrLess(ms[i].id, ms[j].id))
  {
    hide ShownFor, MessageFrom, Winning;
    var e := ShownAt(env, E, events, ps, ms, i);
    var f := ShownAt(env, E, events, ps, ms, j);
    ShownCarries(env, E, e, ms[i]);
    ShownCarries(env, E, f, ms[j]);
    assert Before(events[ps[i]], events[ps[j]]);
  }

  lemma ShownSomewhere(env: Env, E: set<Event>, events: seq<Event>, ps: seq<nat>, ms: seq<MessageView>, e: Event) returns (i: nat)
    requires Timeline(E, events) && Placed(env, events, 0, ps, ms) && Winning(E, e) && e.kind.Message?
    ensures i < |ms| && ShownFor(env, E, e, ms[i])
  {
    hide ShownFor, MessageFrom, Winning, Before;
    assert e in events;
    var p :| 0 <= p < |events| && events[p] == e;
    assert p in ps;
    i :| 0 <= i < |ps| && ps[i] == p;
    var f := ShownAt(env, E, events, ps, ms, i);
  }

  lemma ShownCarries(env: Env, E: set<Event>, e: Event, m: MessageView)
    requires ShownFor(env, E, e, m)
    ensures Carries(e, m)
  {
  }

  // ----- channels and names -----

  /** The winning event announces the channel, under a name. */
  ghost predicate Names(env: Env, E: set<Event>, e: Event, channel: string) {
    Winning(E, e) && e.kind.Channel? && e.channel == channel && env.decode(e.content).Some? && env.decode(e.content).value.name != ""
  }

  /** The announcement is the channel's earliest, as its event has it. */
  ghost predicate ListedFor(env: Env, E: set<Event>, e: Event, a: Announcement) {
    && Names(env, E, e, a.id)
    && a.room == e.room && a.author == e.author && a.createdAt == e.timestamp
    && a.name == env.decode(e.content).value.name && a.description == env.decode(e.content).value.description
    && forall f :: Names(env, E, f, a.id) ==> f == e || (Before(e, f) && a.createdAt <= f.timestamp)
  }

  ghost predicate Gone(E: set<Event>, channel: string) {
    exists d :: Winning(E, d) && d.kind.ChannelDelete? && d.channel == channel
  }

  lemma EarliestIs(env: Env, E: set<Event>, a: Announcement)
    ensures AnnouncedFirst(env, E, a) <==> exists e :: ListedFor(env, E, e, a)
  {
    hide Winners, Winning;
    forall e ensures e in Winners(E) <==> Winning(E, e) { WinningIs(E, e); }
    forall e ensures Earliest(env, E, e) && Announced(env, e) == a <==> ListedFor(env, E, e, a) {
      if ListedFor(env, E, e, a) {
        forall f | f in Winners(E) && Announces(env, f) && f.channel == e.channel ensures f == e || EventLess(e, f) {
          assert Names(env, E, f, a.id);
        }
      }
      if Earliest(env, E, e) && Announced(env, e) == a {
        forall f | Names(env, E, f, a.id) ensures f == e || (Before(e, f) && a.createdAt <= f.timestamp) {
          assert f in Winners(E) && Announces(env, f) && f.channel == e.channel;
        }
      }
    }
  }

  /**
   The channels of any view, read off the fields: an announcement is listed exactly when
   it is its channel's earliest winning one and no winning event withdraws the channel.
   Withdrawn channels and conflicted authors are listed in ascending order.
   */
  lemma ChannelsListed(env: Env, E: set<Event>)
    requires IdsDetermine(E)
    ensures var v := View(env, E);
      && (forall a :: a in v.channels <==> !Gone(E, a.id) && exists e :: ListedFor(env, E, e, a))
      && (forall c :: c in v.deletedChannels <==> Gone(E, c))
      && (forall i, j :: 0 <= i < j < |v.deletedChannels| ==> StrLess(v.deletedChannels[i], v.deletedChannels[j]))
      && (forall i, j :: 0 <= i < j < |v.conflictedAuthors| ==> StrLess(v.conflictedAuthors[i], v.conflictedAuthors[j]))
      && (forall a :: a in v.conflictedAuthors <==>
            exists e, f :: e in E && f in E && e.author == a && f.author == a && e.seq_ == f.seq_ && e.id != f.id)
  {
    hide Winners, Winning, ListedFor, AnnouncedFirst;
    ChannelsExactly(env, E);
    forall a ensures AnnouncedFirst(env, E, a) <==> exists e :: ListedFor(env, E, e, a) { EarliestIs(env, E, a); }
    forall d ensures d in Winners(E) <==> Winning(E, d) { WinningIs(E, d); }
    forall c ensures Withdrawn(E, c) <==> Gone(E, c) { }
    ListsAscend(env, E);
    forall a ensures a in View(env, E).conflictedAuthors <==>
      exists e, f :: e in E && f in E && e.author == a && f.author == a && e.seq_ == f.seq_ && e.id != f.id
    {
      ConflictedExactly(env, E, a);
      if Diverged(a, E) { var e, f :| e in E && f in E && SameSlot(e, f) && e.id != f.id && e.author == a; }
      if e, f :| e in E && f in E && e.author == a && f.author == a && e.seq_ == f.seq_ && e.id != f.id {
        assert SameSlot(e, f);
      }
    }
  }

  lemma ListsAscend(env: Env, E: set<Event>)
    requires IdsDetermine(E)
    ensures var v := View(env, E);
      && (forall i, j :: 0 <= i < j < |v.deletedChannels| ==> StrLess(v.deletedChannels[i], v.deletedChannels[j]))
      && (forall i, j :: 0 <= i < j < |v.conflictedAuthors| ==> StrLess(v.conflictedAuthors[i], v.conflictedAuthors[j]))
  {
    hide Winners, Fold, Live, Conflicted;
    WinnersDetermined(E);
    EventLessTotal(Winners(E));
    var acc := Fold(env, EMPTY, Enumerate(Winners(E), EventLess));
    StrLessTotal(acc.deleted);
    StrLessTotal(Conflicted(E));
  }
}
