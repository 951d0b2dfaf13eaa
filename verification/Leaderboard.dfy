/**
 The contribution ranking: a counting loop with a cap per host, requester and day,
 against the closed form it computes.
 */
module Leaderboard {
  import opened Ordering
  import opened Sums

  const WINDOW := 30 * 24 * 3600
  const SKEW := 300
  const DAY := 86400
  const MAX_PER_PAIR_DAY := 20

  datatype Receipt = Receipt(request: string, host: string, requester: string, timestamp: int, completed: bool)

  datatype Entry = Entry(host: string, name: string, score: nat, helped: nat)

  /** A requester and a UTC day. */
  type Pair = (string, int)

  function UtcDay(timestamp: int): int {
    timestamp / DAY
  }

  predicate Eligible(r: Receipt, optOut: set<string>, now: int) {
    r.completed && r.host != r.requester && now - WINDOW <= r.timestamp <= now + SKEW && r.host !in optOut
  }

  // ----- the closed form -----

  /** Equal request ids mean equal receipts. */
  ghost predicate IdsDetermine(S: set<Receipt>) {
    forall r, s :: r in S && s in S && r.request == s.request ==> r == s
  }

  function PairOf(r: Receipt): Pair {
    (r.requester, UtcDay(r.timestamp))
  }

  /** The receipts that may count for a host. */
  ghost function Served(S: set<Receipt>, optOut: set<string>, now: int, host: string): set<Receipt> {
    set r | r in S && Eligible(r, optOut, now) && r.host == host
  }

  ghost function OnDay(E: set<Receipt>, p: Pair): set<Receipt> {
    set r | r in E && PairOf(r) == p
  }

  function Cap(n: nat): nat {
    if n > MAX_PER_PAIR_DAY then MAX_PER_PAIR_DAY else n
  }

  /** Points per requester and day, capped. */
  ghost function Points(E: set<Receipt>): map<Pair, nat> {
    map p | p in (set r | r in E :: PairOf(r)) :: Cap(|OnDay(E, p)|)
  }

  ghost function Score(E: set<Receipt>): nat {
    Sum(Points(E))
  }

  ghost function Helped(E: set<Receipt>): set<string> {
    set r | r in E :: r.requester
  }

  function DisplayName(names: map<string, string>, host: string): string {
    if host in names && names[host] != "" then names[host] else "Member " + host
  }

  ghost function EntryOf(E: set<Receipt>, names: map<string, string>, host: string): Entry {
    Entry(host, DisplayName(names, host), Score(E), |Helped(E)|)
  }

  /** Hosts with at least one receipt that counts. */
  ghost function Hosts(S: set<Receipt>, optOut: set<string>, now: int): set<string> {
    set r | r in S && Eligible(r, optOut, now) :: r.host
  }

  ghost function Entries(S: set<Receipt>, names: map<string, string>, optOut: set<string>, now: int): set<Entry> {
    set h | h in Hosts(S, optOut, now) :: EntryOf(Served(S, optOut, now, h), names, h)
  }

  /** Higher score, then more members helped, then smaller id. */
  predicate Ahead(a: Entry, b: Entry) {
    if a.score != b.score then a.score > b.score
    else if a.helped != b.helped then a.helped > b.helped
    else StrLess(a.host, b.host)
  }

  lemma AheadTotal(S: set<Entry>)
    requires forall a, b :: a in S && b in S && a.host == b.host ==> a == b
    ensures TotalOn(Ahead, S)
  {
    forall x | x in S ensures !Ahead(x, x) { StrIrreflexive(x.host); }
    forall x, y | x in S && y in S && x != y ensures Ahead(x, y) || Ahead(y, x) { StrTotal(x.host, y.host); }
    forall x, y, z | x in S && y in S && z in S && Ahead(x, y) && Ahead(y, z) ensures Ahead(x, z) {
      if x.score == y.score == z.score && x.helped == y.helped == z.helped { StrTransitive(x.host, y.host, z.host); }
    }
  }

  /** The ranking of a set of receipts. */
  ghost function Ranking(S: set<Receipt>, names: map<string, string>, optOut: set<string>, now: int): seq<Entry> {
    AheadTotal(Entries(S, names, optOut, now));
    Enumerate(Entries(S, names, optOut, now), Ahead)
  }

  // ----- one more receipt -----

  lemma PointsPlus(E: set<Receipt>, r: Receipt)
    requires r !in E
    ensures Points(E + {r}) == Points(E)[PairOf(r) := Cap(|OnDay(E, PairOf(r))| + 1)]
  {
    var p := PairOf(r);
    var E2 := E + {r};
    assert OnDay(E2, p) == OnDay(E, p) + {r};
    forall q | q != p ensures OnDay(E2, q) == OnDay(E, q) { }
    assert (set x | x in E2 :: PairOf(x)) == (set x | x in E :: PairOf(x)) + {p};
  }

  /** A new receipt adds a point unless its pair already has the day's maximum. */
  lemma ScorePlus(E: set<Receipt>, r: Receipt)
    requires r !in E
    ensures Score(E + {r}) == Score(E) + (if |OnDay(E, PairOf(r))| >= MAX_PER_PAIR_DAY then 0 else 1)
  {
    hide Points, OnDay, Sum;
    var p := PairOf(r);
    PointsPlus(E, r);
    PointsAt(E, p);
    SumPut(Points(E), p, Cap(|OnDay(E, p)| + 1));
  }

  lemma PointsAt(E: set<Receipt>, p: Pair)
    ensures p in Points(E) ==> Points(E)[p] == Cap(|OnDay(E, p)|)
    ensures p !in Points(E) ==> |OnDay(E, p)| == 0
  {
  }

  // ----- the bound -----

  lemma {:induction false} SumAtMost<K>(m: map<K, nat>, c: nat)
    requires forall k :: k in m ==> m[k] <= c
    ensures Sum(m) <= c * |m|
    decreases m.Keys
  {
    hide Sum;
    if m.Keys == {} {
      EmptySum<K>();
      assert m == map[];
    } else {
      var k :| k in m.Keys;
      SumWithout(m, k);
      SumAtMost(m - {k}, c);
      OneKeyFewer(m, k);
      TimesOneMore(c, |m - {k}|);
    }
  }

  lemma EmptySum<K>()
    ensures Sum<K>(map[]) == 0
  {
  }

  lemma TimesOneMore(c: nat, n: nat)
    ensures c * (n + 1) == c * n + c
  {
  }

  lemma OneKeyFewer<K, V>(m: map<K, V>, k: K)
    requires k in m
    ensures |m - {k}| == |m| - 1
  {
  }

  lemma {:induction false} RangeSize(S: set<int>, lo: int, n: nat)
    requires forall x :: x in S ==> lo <= x < lo + n
    ensures |S| <= n
    decreases n
  {
    if n == 0 {
      assert forall x :: x !in S;
    } else {
      RangeSize(S - {lo + n - 1}, lo, n - 1);
    }
  }

  /** Pairs of a name and one of `n` days: at most `n` for each name. */
  lemma {:induction false} PairsSize(P: set<Pair>, names: set<string>, lo: int, n: nat)
    requires forall p :: p in P ==> p.0 in names && lo <= p.1 < lo + n
    ensures |P| <= n * |names|
    decreases names
  {
    if names == {} {
      assert P == {};
    } else {
      var x :| x in names;
      var mine := set p | p in P && p.0 == x;
      var days := set p | p in mine :: p.1;
      assert mine == set d | d in days :: (x, d);
      SameSize(days, mine, x);
      RangeSize(days, lo, n);
      PairsSize(P - mine, names - {x}, lo, n);
      assert |P - mine| == |P| - |mine|;
      assert n * |names| == n * (|names| - 1) + n;
    }
  }

  lemma {:induction false} SameSize(days: set<int>, pairs: set<Pair>, x: string)
    requires pairs == set d | d in days :: (x, d)
    ensures |pairs| == |days|
    decreases |pairs|
  {
    if pairs == {} {
      assert forall d :: d in days ==> (x, d) in pairs;
      assert forall d :: d !in days;
    } else {
      var p :| p in pairs;
      assert pairs - {p} == set e | e in days - {p.1} :: (x, e);
      SameSize(days - {p.1}, pairs - {p}, x);
    }
  }

  /** No host scores more than 640 for each member it helped: twenty a day over at most 32 days. */
  lemma ScoreBound(S: set<Receipt>, optOut: set<string>, now: int, host: string)
    ensures var E := Served(S, optOut, now, host); Score(E) <= 640 * |Helped(E)|
  {
    var E := Served(S, optOut, now, host);
    var P := Points(E);
    SumAtMost(P, MAX_PER_PAIR_DAY);
    var lo := (now - WINDOW) / DAY;
    forall p | p in P.Keys ensures p.0 in Helped(E) && lo <= p.1 < lo + 32 {
      var r :| r in E && PairOf(r) == p;
      DayInWindow(r.timestamp, now);
    }
    PairsSize(P.Keys, Helped(E), lo, 32);
    assert |P| == |P.Keys|;
  }

  lemma DayInWindow(timestamp: int, now: int)
    requires now - WINDOW <= timestamp <= now + SKEW
    ensures (now - WINDOW) / DAY <= UtcDay(timestamp) < (now - WINDOW) / DAY + 32
  {
  }

  // ----- the program -----

  type Key = (string, string, int)

  function KeyOf(r: Receipt): Key {
    (r.host, r.requester, UtcDay(r.timestamp))
  }

  /** The tables of the counting loop after the receipts of `P`. */
  datatype Tables = Tables(counts: map<Key, nat>, scores: map<string, nat>, helped: map<string, set<string>>)

  function CountAt(counts: map<Key, nat>, k: Key): nat {
    if k in counts then counts[k] else 0
  }

  ghost predicate CountsRight(counts: map<Key, nat>, P: set<Receipt>, optOut: set<string>, now: int) {
    forall h, q, d :: CountAt(counts, (h, q, d)) == Cap(|OnDay(Served(P, optOut, now, h), (q, d))|)
  }

  ghost predicate ScoresRight(t: Tables, P: set<Receipt>, optOut: set<string>, now: int) {
    && t.scores.Keys == Hosts(P, optOut, now) && t.helped.Keys == t.scores.Keys
    && (forall h :: h in t.scores ==> t.scores[h] == Score(Served(P, optOut, now, h)))
    && (forall h :: h in t.helped ==> t.helped[h] == Helped(Served(P, optOut, now, h)))
  }

  lemma ServedPlus(P: set<Receipt>, r: Receipt, optOut: set<string>, now: int, h: string)
    ensures Served(P + {r}, optOut, now, h) ==
      Served(P, optOut, now, h) + (if Eligible(r, optOut, now) && r.host == h then {r} else {})
  {
  }

  /** A receipt that does not count changes no table. */
  lemma SkipKeeps(t: Tables, P: set<Receipt>, r: Receipt, optOut: set<string>, now: int)
    requires CountsRight(t.counts, P, optOut, now) && ScoresRight(t, P, optOut, now) && !Eligible(r, optOut, now)
    ensures CountsRight(t.counts, P + {r}, optOut, now) && ScoresRight(t, P + {r}, optOut, now)
  {
    forall h ensures Served(P + {r}, optOut, now, h) == Served(P, optOut, now, h) { ServedPlus(P, r, optOut, now, h); }
    assert Hosts(P + {r}, optOut, now) == Hosts(P, optOut, now);
  }

  lemma OnDayPlus(E: set<Receipt>, r: Receipt, p: Pair)
    requires r !in E
    ensures |OnDay(E + {r}, p)| == |OnDay(E, p)| + (if PairOf(r) == p then 1 else 0)
  {
    if PairOf(r) == p {
      assert OnDay(E + {r}, p) == OnDay(E, p) + {r};
    } else {
      assert OnDay(E + {r}, p) == OnDay(E, p);
    }
  }

  lemma CountsPlus(counts: map<Key, nat>, P: set<Receipt>, r: Receipt, optOut: set<string>, now: int)
    requires CountsRight(counts, P, optOut, now) && Eligible(r, optOut, now) && r !in P
    ensures var c := CountAt(counts, KeyOf(r));
      CountsRight(if c >= MAX_PER_PAIR_DAY then counts else counts[KeyOf(r) := c + 1], P + {r}, optOut, now)
  {
    var c := CountAt(counts, KeyOf(r));
    var counts2 := if c >= MAX_PER_PAIR_DAY then counts else counts[KeyOf(r) := c + 1];
    forall h, q, d ensures CountAt(counts2, (h, q, d)) == Cap(|OnDay(Served(P + {r}, optOut, now, h), (q, d))|) {
      CountPlusAt(counts, counts2, P, r, optOut, now, h, q, d);
    }
  }

  lemma CountPlusAt(counts: map<Key, nat>, counts2: map<Key, nat>, P: set<Receipt>, r: Receipt, optOut: set<string>, now: int, h: string, q: string, d: int)
    requires CountsRight(counts, P, optOut, now) && Eligible(r, optOut, now) && r !in P
    requires var c := CountAt(counts, KeyOf(r)); counts2 == if c >= MAX_PER_PAIR_DAY then counts else counts[KeyOf(r) := c + 1]
    ensures CountAt(counts2, (h, q, d)) == Cap(|OnDay(Served(P + {r}, optOut, now, h), (q, d))|)
  {
    hide Served, OnDay, Eligible;
    var E := Served(P, optOut, now, h);
    assert CountAt(counts, (h, q, d)) == Cap(|OnDay(E, (q, d))|);
    ServedPlus(P, r, optOut, now, h);
    if h == r.host {
      NotServed(P, optOut, now, h, r);
      OnDayPlus(E, r, (q, d));
    } else {
      assert E + {} == E;
    }
  }

  lemma NotServed(P: set<Receipt>, optOut: set<string>, now: int, h: string, r: Receipt)
    requires r !in P
    ensures r !in Served(P, optOut, now, h)
  {
  }

  lemma FullPairKnown(P: set<Receipt>, optOut: set<string>, now: int, r: Receipt)
    requires |OnDay(Served(P, optOut, now, r.host), PairOf(r))| > 0
    ensures r.requester in Helped(Served(P, optOut, now, r.host)) && r.host in Hosts(P, optOut, now)
  {
  }

  lemma HostsPlus(P: set<Receipt>, r: Receipt, optOut: set<string>, now: int)
    requires Eligible(r, optOut, now)
    ensures Hosts(P + {r}, optOut, now) == Hosts(P, optOut, now) + {r.host}
  {
  }

  lemma HelpedPlus(E: set<Receipt>, r: Receipt)
    ensures Helped(E + {r}) == Helped(E) + {r.requester}
  {
  }

  /** What one more counting receipt changes, host by host. */
  lemma HostPlus(P: set<Receipt>, r: Receipt, optOut: set<string>, now: int, h: string)
    requires Eligible(r, optOut, now) && r !in P
    ensures var E, E2 := Served(P, optOut, now, h), Served(P + {r}, optOut, now, h);
      && (h != r.host ==> E2 == E)
      && (h == r.host && |OnDay(E, PairOf(r))| >= MAX_PER_PAIR_DAY ==>
            Score(E2) == Score(E) && Helped(E2) == Helped(E) && h in Hosts(P, optOut, now))
      && (h == r.host && |OnDay(E, PairOf(r))| < MAX_PER_PAIR_DAY ==>
            Score(E2) == Score(E) + 1 && Helped(E2) == Helped(E) + {r.requester})
  {
    hide Served, OnDay, Eligible, Score, Helped, Hosts;
    var E := Served(P, optOut, now, h);
    ServedPlus(P, r, optOut, now, h);
    if h == r.host {
      NotServed(P, optOut, now, h, r);
      ScorePlus(E, r);
      HelpedPlus(E, r);
      if |OnDay(E, PairOf(r))| >= MAX_PER_PAIR_DAY { FullPairKnown(P, optOut, now, r); }
    } else {
      assert E + {} == E;
    }
  }

  lemma ScoresPlus(t: Tables, t2: Tables, P: set<Receipt>, r: Receipt, optOut: set<string>, now: int)
    requires ScoresRight(t, P, optOut, now) && CountsRight(t.counts, P, optOut, now) && Eligible(r, optOut, now) && r !in P
    requires var c := CountAt(t.counts, KeyOf(r));
      var had := if r.host in t.scores then t.scores[r.host] else 0;
      var knew := if r.host in t.helped then t.helped[r.host] else {};
      && t2.scores == (if c >= MAX_PER_PAIR_DAY then t.scores else t.scores[r.host := had + 1])
      && t2.helped == (if c >= MAX_PER_PAIR_DAY then t.helped else t.helped[r.host := knew + {r.requester}])
    ensures ScoresRight(t2, P + {r}, optOut, now)
  {
    hide Served, OnDay, Eligible, Score, Helped, Hosts;
    var c := CountAt(t.counts, KeyOf(r));
    var E := Served(P, optOut, now, r.host);
    assert c == Cap(|OnDay(E, PairOf(r))|);
    HostsPlus(P, r, optOut, now);
    HostPlus(P, r, optOut, now, r.host);
    NoHostNoReceipts(P, optOut, now, r.host);
    assert Hosts(P + {r}, optOut, now) == t2.scores.Keys;
    forall h | h in t2.scores
      ensures t2.scores[h] == Score(Served(P + {r}, optOut, now, h)) && t2.helped[h] == Helped(Served(P + {r}, optOut, now, h))
    {
      HostPlus(P, r, optOut, now, h);
    }
  }

  lemma NoHostNoReceipts(P: set<Receipt>, optOut: set<string>, now: int, h: string)
    ensures h !in Hosts(P, optOut, now) ==>
      var E := Served(P, optOut, now, h); E == {} && Score(E) == 0 && Helped(E) == {}
  {
  }

  /** One receipt with a new request id. */
  method CountReceipt(t: Tables, r: Receipt, optOut: set<string>, now: int, ghost P: set<Receipt>) returns (t2: Tables)
    requires CountsRight(t.counts, P, optOut, now) && ScoresRight(t, P, optOut, now) && r !in P
    ensures CountsRight(t2.counts, P + {r}, optOut, now) && ScoresRight(t2, P + {r}, optOut, now)
  {
    hide CountsRight, ScoresRight;
    if !r.completed || r.host == r.requester || r.timestamp < now - WINDOW || r.timestamp > now + SKEW || r.host in optOut {
      SkipKeeps(t, P, r, optOut, now);
      return t;
    }
    CountsPlus(t.counts, P, r, optOut, now);
    var key := (r.host, r.requester, UtcDay(r.timestamp));
    var current := CountAt(t.counts, key);
    if current >= MAX_PER_PAIR_DAY {
      ScoresPlus(t, t, P, r, optOut, now);
      return t;
    }
    var had := if r.host in t.scores then t.scores[r.host] else 0;
    var knew := if r.host in t.helped then t.helped[r.host] else {};
    t2 := Tables(t.counts[key := current + 1], t.scores[r.host := had + 1], t.helped[r.host := knew + {r.requester}]);
    ScoresPlus(t, t2, P, r, optOut, now);
  }

  ghost function Elems(receipts: seq<Receipt>): set<Receipt> {
    set r | r in receipts
  }

  method CountReceipts(receipts: seq<Receipt>, optOut: set<string>, now: int) returns (t: Tables)
    requires IdsDetermine(Elems(receipts))
    ensures ScoresRight(t, Elems(receipts), optOut, now)
  {
    t := Tables(map[], map[], map[]);
    NothingCounted(optOut, now);
    var seen: set<string> := {};
    for i := 0 to |receipts|
      invariant seen == set r | r in receipts[..i] :: r.request
      invariant CountsRight(t.counts, Elems(receipts[..i]), optOut, now) && ScoresRight(t, Elems(receipts[..i]), optOut, now)
    {
      hide CountsRight, ScoresRight;
      var r := receipts[i];
      ghost var P := Elems(receipts[..i]);
      assert receipts[..i + 1] == receipts[..i] + [r];
      assert Elems(receipts[..i + 1]) == P + {r};
      if r.request in seen {
        assert P + {r} == P by { assert forall x :: x in P + {r} ==> x in Elems(receipts); }
      } else {
        t := CountReceipt(t, r, optOut, now, P);
        seen := seen + {r.request};
      }
    }
    assert receipts[..|receipts|] == receipts;
  }

  lemma NothingCounted(optOut: set<string>, now: int)
    ensures CountsRight(map[], {}, optOut, now) && ScoresRight(Tables(map[], map[], map[]), {}, optOut, now)
    ensures Elems([]) == {}
  {
  }

  /** One entry for each host in the tables, in whatever order the table gives them. */
  method CollectEntries(t: Tables, names: map<string, string>, ghost S: set<Receipt>, optOut: set<string>, now: int) returns (entries: seq<Entry>)
    requires ScoresRight(t, S, optOut, now)
    ensures Distinct(entries) && forall e :: e in entries <==> e in Entries(S, names, optOut, now)
  {
    hide Served, Score, Helped, Hosts, DisplayName;
    entries := [];
    var left := t.scores.Keys;
    while left != {}
      invariant left <= t.scores.Keys && Distinct(entries)
      invariant forall e :: e in entries <==> e.host in t.scores.Keys - left && e == EntryOf(Served(S, optOut, now, e.host), names, e.host)
      decreases left
    {
      var h :| h in left;
      var e := Entry(h, DisplayName(names, h), t.scores[h], |t.helped[h]|);
      assert e == EntryOf(Served(S, optOut, now, h), names, h);
      assert e !in entries;
      entries := entries + [e];
      left := left - {h};
    }
  }

  /** The receipts that count for a host, read off their fields. */
  ghost function Counting(S: set<Receipt>, optOut: set<string>, now: int, host: string): set<Receipt> {
    set r | r in S && r.host == host && r.completed && r.requester != host && host !in optOut
            && now - 2_592_000 <= r.timestamp && r.timestamp <= now + 300
  }

  lemma CountingIsServed(S: set<Receipt>, optOut: set<string>, now: int, host: string)
    ensures Counting(S, optOut, now, host) == Served(S, optOut, now, host)
    ensures host in Hosts(S, optOut, now) <==> Counting(S, optOut, now, host) != {}
  {
    if host in Hosts(S, optOut, now) {
      var r :| r in S && Eligible(r, optOut, now) && r.host == host;
      assert r in Counting(S, optOut, now, host);
    }
    if Counting(S, optOut, now, host) != {} {
      var r :| r in Counting(S, optOut, now, host);
      assert Eligible(r, optOut, now);
    }
  }

  /** An entry says of its host what its counting receipts give. */
  ghost predicate Tells(e: Entry, S: set<Receipt>, names: map<string, string>, optOut: set<string>, now: int) {
    var C := Counting(S, optOut, now, e.host);
    && C != {} && e.score == Score(C) && e.helped == |set r | r in C :: r.requester|
    && e.name == (if e.host in names && names[e.host] != "" then names[e.host] else "Member " + e.host)
  }

  lemma EntryTells(S: set<Receipt>, names: map<string, string>, optOut: set<string>, now: int, e: Entry)
    requires e in Entries(S, names, optOut, now)
    ensures Tells(e, S, names, optOut, now)
  {
    hide Served, Counting, Score;
    var h :| h in Hosts(S, optOut, now) && EntryOf(Served(S, optOut, now, h), names, h) == e;
    CountingIsServed(S, optOut, now, h);
  }

  /**
   The ranking: higher scores first, among equal scores those that helped more members,
   among those the smaller id; one entry for each host something counts for, and each
   telling what counts.
   */
  lemma RankingOrdered(S: set<Receipt>, names: map<string, string>, optOut: set<string>, now: int)
    ensures var r := Ranking(S, names, optOut, now);
      && (forall i, j :: 0 <= i < j < |r| ==>
            || r[i].score > r[j].score
            || (r[i].score == r[j].score && r[i].helped > r[j].helped)
            || (r[i].score == r[j].score && r[i].helped == r[j].helped && StrLess(r[i].host, r[j].host)))
      && (forall i, j :: 0 <= i < j < |r| ==> r[i].host != r[j].host)
      && (forall i :: 0 <= i < |r| ==> Tells(r[i], S, names, optOut, now))
      && (forall h :: Counting(S, optOut, now, h) != {} <==> exists i :: 0 <= i < |r| && r[i].host == h)
  {
    hide Counting, Tells, Entries, EntryOf, Hosts;
    var r := Ranking(S, names, optOut, now);
    var goal := Entries(S, names, optOut, now);
    HostsDetermine(S, names, optOut, now);
    AheadTotal(goal);
    forall i | 0 <= i < |r| ensures r[i] in goal && Tells(r[i], S, names, optOut, now) {
      assert r[i] in r;
      EntryTells(S, names, optOut, now, r[i]);
    }
    forall i, j | 0 <= i < j < |r| ensures r[i].host != r[j].host {
      assert r[i] in r && r[j] in r && Ahead(r[i], r[j]);
      StrIrreflexive(r[i].host);
    }
    forall h ensures Counting(S, optOut, now, h) != {} <==> exists i :: 0 <= i < |r| && r[i].host == h {
      HostListed(S, names, optOut, now, r, h);
    }
  }

  lemma HostsDetermine(S: set<Receipt>, names: map<string, string>, optOut: set<string>, now: int)
    ensures var goal := Entries(S, names, optOut, now);
      forall a, b :: a in goal && b in goal && a.host == b.host ==> a == b
  {
    hide Served, Score, Helped, DisplayName, Hosts;
  }

  lemma HostListed(S: set<Receipt>, names: map<string, string>, optOut: set<string>, now: int, r: seq<Entry>, h: string)
    requires forall e :: e in r <==> e in Entries(S, names, optOut, now)
    ensures Counting(S, optOut, now, h) != {} <==> exists i :: 0 <= i < |r| && r[i].host == h
  {
    hide Counting, Served, Score, Helped, DisplayName, Hosts;
    CountingIsServed(S, optOut, now, h);
    if h in Hosts(S, optOut, now) {
      var e := EntryOf(Served(S, optOut, now, h), names, h);
      assert e in Entries(S, names, optOut, now) && e in r;
    }
    if i :| 0 <= i < |r| && r[i].host == h {
      assert r[i] in r;
    }
  }

  /** The same host, requester and UTC day, read off the fields. */
  ghost function SameDay(S: set<Receipt>, optOut: set<string>, now: int, r: Receipt): set<Receipt> {
    set x | x in Counting(S, optOut, now, r.host) && x.requester == r.requester && x.timestamp / 86_400 == r.timestamp / 86_400
  }

  /**
   What a new receipt changes. One that is not completed, is for the host itself, is
   older than thirty days or more than five minutes ahead, or whose host opted out,
   changes no ranking; any other adds one point to its host unless twenty of that
   requester and day are there already, and nothing to any other host.
   */
  lemma ReceiptMoves(S: set<Receipt>, r: Receipt, names: map<string, string>, optOut: set<string>, now: int, host: string)
    requires r !in S
    ensures var counts := r.completed && r.requester != r.host && r.host !in optOut
        && now - 2_592_000 <= r.timestamp && r.timestamp <= now + 300;
      && (!counts ==> Ranking(S + {r}, names, optOut, now) == Ranking(S, names, optOut, now))
      && (counts && host == r.host ==>
            Score(Counting(S + {r}, optOut, now, host)) ==
              Score(Counting(S, optOut, now, host)) + if |SameDay(S, optOut, now, r)| >= 20 then 0 else 1)
      && (host != r.host ==> Counting(S + {r}, optOut, now, host) == Counting(S, optOut, now, host))
    ensures Score({}) == 0
  {
    hide Score;
    var E := Served(S, optOut, now, host);
    CountingIsServed(S, optOut, now, host);
    CountingIsServed(S + {r}, optOut, now, host);
    ServedPlus(S, r, optOut, now, host);
    if !Eligible(r, optOut, now) {
      SameEntries(S, r, names, optOut, now);
    } else if host == r.host {
      ScorePlus(E, r);
      assert SameDay(S, optOut, now, r) == OnDay(E, PairOf(r));
    }
    NothingScored();
  }

  lemma NothingScored()
    ensures Score({}) == 0
  {
    assert Points({}) == map[];
  }

  lemma SameEntries(S: set<Receipt>, r: Receipt, names: map<string, string>, optOut: set<string>, now: int)
    requires !Eligible(r, optOut, now)
    ensures Ranking(S + {r}, names, optOut, now) == Ranking(S, names, optOut, now)
  {
    hide Ahead, Score, Helped, DisplayName, Eligible;
    forall h ensures Served(S + {r}, optOut, now, h) == Served(S, optOut, now, h) { ServedPlus(S, r, optOut, now, h); }
    SameHosts(S, r, optOut, now);
    assert Entries(S + {r}, names, optOut, now) == Entries(S, names, optOut, now);
  }

  lemma SameHosts(S: set<Receipt>, r: Receipt, optOut: set<string>, now: int)
    requires !Eligible(r, optOut, now)
    ensures Hosts(S + {r}, optOut, now) == Hosts(S, optOut, now)
  {
  }

  /** The ranking depends on the set of receipts alone, not on their order, repetition or table order. */
  method CalculateLeaderboard(receipts: seq<Receipt>, names: map<string, string>, optOut: set<string>, now: int) returns (ranking: seq<Entry>)
    requires IdsDetermine(Elems(receipts))
    ensures ranking == Ranking(Elems(receipts), names, optOut, now)
    ensures forall i, j :: 0 <= i < j < |ranking| ==>
      || ranking[i].score > ranking[j].score
      || (ranking[i].score == ranking[j].score && ranking[i].helped > ranking[j].helped)
      || (ranking[i].score == ranking[j].score && ranking[i].helped == ranking[j].helped && StrLess(ranking[i].host, ranking[j].host))
    ensures forall e :: e in ranking ==> Tells(e, Elems(receipts), names, optOut, now)
  {
    hide Tells, ScoresRight, Served, Score, Helped, Hosts, Ahead;
    var t := CountReceipts(receipts, optOut, now);
    ghost var S := Elems(receipts);
    ghost var goal := Entries(S, names, optOut, now);
    var entries := CollectEntries(t, names, S, optOut, now);
    ranking := Sort(entries, Ahead);
    AheadTotal(goal);
    SortEnumerates(entries, goal, Ahead);
    EnumerationUnique(ranking, Ranking(S, names, optOut, now), goal, Ahead);
    RankingOrdered(S, names, optOut, now);
  }
}
