/**
 Versioned membership records: how a roster row is stored, how updates are
 applied, and what one sync round between two rosters computes.
 */
module Membership {

  datatype Status = Pending | Admitted | Removed

  datatype Record = Record(member: string, room: string, device: string, name: string, status: Status, version: int)

  /** The members table: one row per member. */
  type Rows = map<string, Record>

  /** SaveMember: a row already present keeps its room and device key. */
  function SaveMember(rows: Rows, m: Record): Rows {
    if m.member in rows
    then rows[m.member := rows[m.member].(name := m.name, status := m.status, version := m.version)]
    else rows[m.member := m]
  }

  /** A record verifies when it is complete and the room authority issued it. */
  predicate Verifies(issued: set<Record>, m: Record) {
    m in issued && m.member != "" && m.room != "" && m.device != "" && m.name != ""
  }

  /** The records an update loop considers at all. */
  predicate Counts(issued: set<Record>, room: string, m: Record) {
    m.room == room && Verifies(issued, m)
  }

  predicate Newer(rows: Rows, m: Record) {
    m.member in rows ==> m.version > rows[m.member].version
  }

  function ApplyOne(rows: Rows, issued: set<Record>, room: string, m: Record): Rows {
    if Counts(issued, room, m) && Newer(rows, m) then SaveMember(rows, m) else rows
  }

  function ApplyUpdates(rows: Rows, issued: set<Record>, room: string, updates: seq<Record>): Rows
    decreases |updates|
  {
    if updates == [] then rows else ApplyUpdates(ApplyOne(rows, issued, room, updates[0]), issued, room, updates[1..])
  }

  // ----- the watermark -----

  /** The first number from `k` on that is not among the versions. */
  function FirstGap(versions: set<int>, k: int): int
    decreases versions
  {
    if k in versions then FirstGap(versions - {k}, k + 1) else k
  }

  ghost predicate IsFirstGap(versions: set<int>, k: int, g: int) {
    k <= g && g !in versions && forall v :: k <= v < g ==> v in versions
  }

  lemma {:induction false} FirstGapIs(versions: set<int>, k: int)
    ensures IsFirstGap(versions, k, FirstGap(versions, k))
    decreases versions
  {
    if k in versions {
      FirstGapIs(versions - {k}, k + 1);
      var g := FirstGap(versions, k);
      assert forall v :: k + 1 <= v < g ==> v in versions - {k};
    }
  }

  function Versions(rows: Rows): set<int> {
    set m | m in rows :: rows[m].version
  }

  /** The highest version below which nothing is missing from the rows. */
  function Watermark(rows: Rows): int {
    FirstGap(Versions(rows), 1) - 1
  }

  /** The watermark is the largest k such that versions 1 to k are all present. */
  lemma WatermarkIsLargest(rows: Rows, k: int)
    requires k >= 0
    ensures Watermark(rows) >= 0
    ensures k <= Watermark(rows) <==> forall v :: 1 <= v <= k ==> v in Versions(rows)
  {
    FirstGapIs(Versions(rows), 1);
  }

  // ----- merging is a join -----

  /** Records of one room, in which a member and a version name one record, under one device key. */
  ghost predicate Coherent(R: set<Record>) {
    && (forall r, s :: r in R && s in R && r.member == s.member ==> r.device == s.device && r.room == s.room)
    && (forall r, s :: r in R && s in R && r.member == s.member && r.version == s.version ==> r == s)
  }

  ghost predicate RowsFrom(rows: Rows, R: set<Record>) {
    forall m :: m in rows ==> rows[m] in R && rows[m].member == m
  }

  /** `best` holds, for each member with a candidate, the candidate of highest version. */
  ghost predicate IsJoin(best: Rows, candidates: set<Record>) {
    && (forall m :: m in best ==> best[m] in candidates && best[m].member == m)
    && (forall r :: r in candidates ==> r.member in best && r.version <= best[r.member].version)
  }

  function Values(rows: Rows): set<Record> {
    set m | m in rows :: rows[m]
  }

  /** A join is determined by its candidates, so the order and repetition of updates cannot matter. */
  lemma JoinUnique(a: Rows, b: Rows, candidates: set<Record>)
    requires Coherent(candidates) && IsJoin(a, candidates) && IsJoin(b, candidates)
    ensures a == b
  {
  }

  lemma ApplyOneJoins(rows: Rows, issued: set<Record>, room: string, m: Record, C: set<Record>)
    requires Coherent(issued) && C <= issued && IsJoin(rows, C)
    ensures IsJoin(ApplyOne(rows, issued, room, m), if Counts(issued, room, m) then C + {m} else C)
  {
  }

  ghost function Counted(issued: set<Record>, room: string, updates: seq<Record>): set<Record> {
    set m | m in updates && Counts(issued, room, m)
  }

  /**
   Applying updates is the join of the rows with the updates that verify: for each
   member the highest version wins, in whatever order and however often they come.
   */
  lemma {:induction false} ApplyIsJoin(rows: Rows, issued: set<Record>, room: string, updates: seq<Record>, C: set<Record>)
    requires Coherent(issued) && C <= issued && IsJoin(rows, C)
    ensures IsJoin(ApplyUpdates(rows, issued, room, updates), C + Counted(issued, room, updates))
    decreases |updates|
  {
    hide IsJoin, Counts, Coherent, ApplyOne;
    if updates == [] {
      assert C + Counted(issued, room, updates) == C;
    } else {
      var m := updates[0];
      ApplyOneJoins(rows, issued, room, m, C);
      CountsVerified(issued, room, m);
      var C2 := if Counts(issued, room, m) then C + {m} else C;
      ApplyIsJoin(ApplyOne(rows, issued, room, m), issued, room, updates[1..], C2);
      assert updates == [m] + updates[1..];
      assert C2 + Counted(issued, room, updates[1..]) == C + Counted(issued, room, updates);
    }
  }

  lemma CountsVerified(issued: set<Record>, room: string, m: Record)
    ensures Counts(issued, room, m) ==> m in issued
  {
  }

  lemma RowsAreTheirJoin(rows: Rows)
    requires forall m :: m in rows ==> rows[m].member == m
    ensures IsJoin(rows, Values(rows))
  {
  }

  // ----- one sync round -----

  /** What the responder sends: rows above the version the requester reports for that member. */
  predicate Sends(known: map<string, int>, knownVersion: int, r: Record) {
    if known != map[] then !(r.member in known && r.version <= known[r.member])
    else r.version > knownVersion
  }

  ghost predicate IsAnswer(answer: seq<Record>, responder: Rows, known: map<string, int>, knownVersion: int) {
    forall r :: r in answer <==> r in Values(responder) && Sends(known, knownVersion, r)
  }

  function KnownVersions(rows: Rows): map<string, int> {
    map m | m in rows :: rows[m].version
  }

  /**
   One round leaves the requester with the join of both rosters exactly when it
   reported its versions, or had none and every responder row is above the room
   version it reported instead.
   */
  lemma RoundJoins(local: Rows, version: int, remote: Rows, issued: set<Record>, room: string, answer: seq<Record>)
    requires Coherent(issued) && RowsFrom(local, issued) && RowsFrom(remote, issued)
    requires forall r :: r in Values(remote) ==> Counts(issued, room, r)
    requires IsAnswer(answer, remote, KnownVersions(local), version)
    ensures IsJoin(ApplyUpdates(local, issued, room, answer), Values(local) + Values(remote))
      <==> local != map[] || forall r :: r in Values(remote) ==> r.version > version
  {
    var C := Values(local) + Counted(issued, room, answer);
    var after := ApplyUpdates(local, issued, room, answer);
    RowsAreTheirJoin(local);
    ApplyIsJoin(local, issued, room, answer, Values(local));
    if local != map[] {
      var m :| m in local;
      assert m in KnownVersions(local);
      forall r | r in Values(local) + Values(remote) ensures r.member in after && r.version <= after[r.member].version {
        if r !in C {
          assert r in Values(remote) && r !in answer;
          assert local[r.member] in C;
        }
      }
      assert IsJoin(after, Values(local) + Values(remote));
    } else {
      NoRowsKnown(remote, version, issued, room, answer, after);
    }
  }

  lemma NoRowsKnown(remote: Rows, version: int, issued: set<Record>, room: string, answer: seq<Record>, after: Rows)
    requires RowsFrom(remote, issued)
    requires forall r :: r in Values(remote) ==> Counts(issued, room, r)
    requires IsAnswer(answer, remote, map[], version)
    requires IsJoin(after, Values(map[]) + Counted(issued, room, answer))
    ensures IsJoin(after, Values(map[]) + Values(remote)) <==> forall r :: r in Values(remote) ==> r.version > version
  {
  }

  /** A node without rows that reports room version 1 is not told of the record issued under it. */
  lemma EmptyRosterMissesRecord() returns (remote: Rows, answer: seq<Record>)
    ensures IsAnswer(answer, remote, KnownVersions(map[]), 1) && |remote| == 1
    ensures !IsJoin(ApplyUpdates(map[], Values(remote), "room", answer), Values(map[]) + Values(remote))
  {
    var r := Record("m", "room", "device", "name", Admitted, 1);
    remote, answer := map["m" := r], [];
    assert remote["m"] == r && r in Values(remote);
    assert forall x :: x in Values(remote) ==> x == r;
    RoundJoins(map[], 1, remote, Values(remote), "room", answer);
  }
}
