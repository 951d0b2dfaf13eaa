/**
 The rosters as the program keeps them: the in-memory Roster, and the member
 table a sync updates in place together with the stored room version.
 */
module RosterStore {
  import opened Membership
  import opened MembershipWorld

  /** `r` is the newest of the records of its member. */
  ghost predicate Newest(r: Record, records: set<Record>) {
    r in records && forall s :: s in records && s.member == r.member ==> s.version <= r.version
  }

  /**
   The in-memory form: a newer verified record replaces the one held. `applied` are
   the records of the room that were applied and verified.
   */
  class Roster {
    const room: string
    ghost const issued: set<Record>
    const authentic: Record -> bool
    var members: Rows
    ghost var applied: set<Record>

    ghost predicate Valid()
      reads this
    {
      && (forall m :: authentic(m) <==> Verifies(issued, m))
      && Coherent(issued) && applied <= issued && IsJoin(members, applied)
    }

    constructor (room: string, ghost issued: set<Record>, authentic: Record -> bool)
      requires (forall m :: authentic(m) <==> Verifies(issued, m)) && Coherent(issued)
      ensures Valid() && members == map[] && applied == {}
      ensures this.room == room && this.issued == issued && this.authentic == authentic
    {
      this.room := room;
      this.issued := issued;
      this.authentic := authentic;
      members := map[];
      applied := {};
    }

    /** Reports whether the record belongs to the room and verifies; a stale one is then ignored. */
    method Apply(m: Record) returns (ok: bool)
      requires Valid()
      modifies this`members, this`applied
      ensures Valid() && ok == Counts(issued, room, m)
      ensures members == ApplyOne(old(members), issued, room, m)
      ensures applied == if ok then old(applied) + {m} else old(applied)
    {
      hide Coherent, IsJoin;
      ApplyOneJoins(members, issued, room, m, applied);
      if m.room != room {
        return false;
      }
      if !authentic(m) {
        return false;
      }
      ok := true;
      applied := applied + {m};
      if m.member in members && m.version <= members[m.member].version {
        return;
      }
      ReplacesRow(members, issued, old(applied), m);
      members := members[m.member := m];
    }

    /** Run over the same records, the in-memory roster agrees with the stored one. */
    method ApplyEach(updates: seq<Record>)
      requires Valid()
      modifies this`members, this`applied
      ensures Valid() && members == ApplyUpdates(old(members), issued, room, updates)
      ensures applied == old(applied) + Counted(issued, room, updates)
    {
      hide Coherent, IsJoin, Counts;
      for i := 0 to |updates|
        invariant Valid()
        invariant ApplyUpdates(members, issued, room, updates[i..]) == ApplyUpdates(old(members), issued, room, updates)
        invariant applied == old(applied) + Counted(issued, room, updates[..i])
      {
        assert updates[i..][0] == updates[i] && updates[i..][1..] == updates[i + 1..];
        assert updates[..i + 1] == updates[..i] + [updates[i]];
        var ok := Apply(updates[i]);
      }
      assert updates[|updates|..] == [] && updates[..|updates|] == updates;
    }

    /** Admitted means: the newest record ever applied for the member admits this very device. */
    method IsAdmitted(member: string, device: string) returns (b: bool)
      requires Valid()
      ensures b <==> exists r :: Newest(r, applied) && r.member == member && r.status == Admitted && r.device == device
    {
      RowIsNewest(members, issued, applied, member);
      if member !in members {
        return false;
      }
      b := members[member].status == Admitted && members[member].device == device;
    }

    /** Removed means: the newest record ever applied for the member is a removal. */
    method IsRemoved(member: string) returns (b: bool)
      requires Valid()
      ensures b <==> exists r :: Newest(r, applied) && r.member == member && r.status == Removed
    {
      RowIsNewest(members, issued, applied, member);
      if member !in members {
        return false;
      }
      b := members[member].status == Removed;
    }
  }

  lemma ReplacesRow(rows: Rows, issued: set<Record>, applied: set<Record>, m: Record)
    requires Coherent(issued) && applied <= issued && IsJoin(rows, applied) && m in issued
    ensures SaveMember(rows, m) == rows[m.member := m]
  {
  }

  /** The row held is the one newest record applied for its member. */
  lemma RowIsNewest(rows: Rows, issued: set<Record>, applied: set<Record>, member: string)
    requires Coherent(issued) && applied <= issued && IsJoin(rows, applied)
    ensures forall r :: Newest(r, applied) && r.member == member <==> member in rows && r == rows[member]
  {
  }

  /** Once a roster holds a member as removed, no further records change that, as long as nothing is issued above a removal. */
  lemma {:induction false} RemovedStaysRemoved(rows: Rows, issued: set<Record>, room: string, updates: seq<Record>, member: string)
    requires Coherent(issued) && RowsFrom(rows, issued) && RemovalFinal(issued)
    requires member in rows && rows[member].status == Removed
    ensures var after := ApplyUpdates(rows, issued, room, updates);
      member in after && after[member].status == Removed && rows[member].version <= after[member].version
    decreases |updates|
  {
    hide Coherent, RemovalFinal, RowsFrom, ApplyOne;
    if updates != [] {
      OneUpdateKeepsRemoved(rows, issued, room, updates[0], member);
      RemovedStaysRemoved(ApplyOne(rows, issued, room, updates[0]), issued, room, updates[1..], member);
    }
  }

  lemma OneUpdateKeepsRemoved(rows: Rows, issued: set<Record>, room: string, u: Record, member: string)
    requires Coherent(issued) && RowsFrom(rows, issued) && RemovalFinal(issued)
    requires member in rows && rows[member].status == Removed
    ensures var after := ApplyOne(rows, issued, room, u);
      && RowsFrom(after, issued)
      && member in after && after[member].status == Removed && rows[member].version <= after[member].version
  {
    if Counts(issued, room, u) && Newer(rows, u) { assert SaveMember(rows, u) == rows[u.member := u]; }
  }

  /** The members table and the stored room version of one node. */
  class MemberStore {
    var rows: Rows
    var roomVersion: int

    constructor (rows: Rows, roomVersion: int)
      ensures this.rows == rows && this.roomVersion == roomVersion
    {
      this.rows := rows;
      this.roomVersion := roomVersion;
    }

    method Save(m: Record)
      modifies this`rows
      ensures rows == SaveMember(old(rows), m)
    {
      if m.member in rows {
        var held := rows[m.member];
        rows := rows[m.member := Record(held.member, held.room, held.device, m.name, m.status, m.version)];
      } else {
        rows := rows[m.member := m];
      }
    }

    /** The room version after which something is missing, found by counting up. */
    method ContiguousVersion() returns (k: int)
      ensures k == Watermark(rows)
    {
      var versions := set m | m in rows :: rows[m].version;
      var contiguous := 1;
      var left := versions;
      while contiguous in versions
        invariant contiguous >= 1
        invariant forall v :: 1 <= v < contiguous ==> v in versions
        invariant left == versions - (set v | v in versions && 1 <= v < contiguous)
        decreases left
      {
        left := left - {contiguous};
        contiguous := contiguous + 1;
      }
      FirstGapIs(Versions(rows), 1);
      assert versions == Versions(rows);
      k := contiguous - 1;
    }

    /**
     Applies the answer of a peer. `known` is the room version the sync read when it
     began; the stored version becomes the watermark when that is above `known`.
     */
    method ApplyMembershipUpdates(room: string, ghost issued: set<Record>, authentic: Record -> bool, known: int, updates: seq<Record>)
      requires forall m :: authentic(m) <==> Verifies(issued, m)
      modifies this
      ensures rows == ApplyUpdates(old(rows), issued, room, updates)
      ensures roomVersion == if Watermark(rows) > known then Watermark(rows) else old(roomVersion)
    {
      for i := 0 to |updates|
        invariant ApplyUpdates(rows, issued, room, updates[i..]) == ApplyUpdates(old(rows), issued, room, updates)
        invariant roomVersion == old(roomVersion)
      {
        var m := updates[i];
        assert updates[i..][0] == m && updates[i..][1..] == updates[i + 1..];
        if m.room != room {
          continue;
        }
        if !authentic(m) {
          continue;
        }
        if m.member in rows && m.version <= rows[m.member].version {
          continue;
        }
        Save(m);
      }
      assert updates[|updates|..] == [];
      var mark := ContiguousVersion();
      if mark > known {
        roomVersion := mark;
      }
    }

    /** A join, approval or removal handled without overlap: the record it signs, if it does, becomes the row and its version the room's. */
    method HandleRequest(room: string, op: Op) returns (ok: bool, signed: Record)
      modifies this
      ensures ok == Allowed(old(rows), op)
      ensures ok ==> signed == Draft(room, old(rows), op, old(roomVersion))
      ensures ok ==> rows == SaveMember(old(rows), signed) && roomVersion == signed.version
      ensures !ok ==> rows == old(rows) && roomVersion == old(roomVersion)
    {
      var known := roomVersion;
      signed := Record("", room, "", "", Removed, 0);
      match op {
        case Join(device, name, approval) =>
          if name == "" || |device| < MEMBER_KEY_LENGTH || MemberId(device) in rows {
            return false, signed;
          }
          var status := Admitted;
          if approval {
            status := Pending;
          }
          signed := Record(MemberId(device), room, device, name, status, known + 1);
        case Approve(member) =>
          if member !in rows || rows[member].status != Pending {
            return false, signed;
          }
          var m := rows[member];
          signed := Record(m.member, m.room, m.device, m.name, Admitted, known + 1);
        case Remove(member) =>
          if member !in rows {
            return false, signed;
          }
          var m := rows[member];
          signed := Record(m.member, m.room, m.device, m.name, Removed, known + 1);
      }
      ok := true;
      Save(signed);
      roomVersion := known + 1;
    }

    /** The responder's rows above what the requester reports, in no particular order. */
    method RosterSnapshot(known: map<string, int>, minVersion: int) returns (answer: seq<Record>)
      ensures IsAnswer(answer, rows, known, minVersion)
    {
      answer := [];
      var left := rows.Keys;
      while left != {}
        invariant left <= rows.Keys
        invariant forall r :: r in answer <==> exists m :: m in rows.Keys - left && rows[m] == r && Sends(known, minVersion, r)
        decreases left
      {
        var m :| m in left;
        var r := rows[m];
        left := left - {m};
        if known != map[] {
          if r.member in known && r.version <= known[r.member] {
            continue;
          }
        } else if r.version <= minVersion {
          continue;
        }
        answer := answer + [r];
      }
      assert forall r :: r in Values(rows) <==> exists m :: m in rows.Keys - left && rows[m] == r;
    }
  }
}
