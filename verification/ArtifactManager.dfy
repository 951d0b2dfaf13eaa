/**
 The artifact manager as the program keeps it: the table of running transfers and
 the files it accounts for, updated in place under one lock.
 */
module ArtifactManager {
  import opened Sums
  import opened Budget
  import opened BudgetLaws

  class Manager {
    var maxBudget: int
    var transfers: map<string, Transfer>
    var staging: map<string, nat>
    var installed: map<string, nat>
    var unrecorded: map<string, nat>

    ghost function State(): Disk
      reads this
    {
      Disk(maxBudget, transfers, staging, installed, unrecorded)
    }

    constructor (budget: nat)
      ensures State() == Disk(budget, map[], map[], map[], map[])
    {
      maxBudget := budget;
      transfers, staging, installed, unrecorded := map[], map[], map[], map[];
    }

    /** Adds up file sizes in whatever order the directory yields them. */
    static method AddUp(files: map<string, nat>) returns (total: nat)
      ensures total == Sum(files)
    {
      total := 0;
      var left := files;
      while left.Keys != {}
        invariant left.Keys <= files.Keys && forall k :: k in left ==> left[k] == files[k]
        invariant total + Sum(left) == Sum(files)
        decreases left.Keys
      {
        var k :| k in left.Keys;
        SumWithout(left, k);
        total := total + left[k];
        left := left - {k};
      }
    }

    /** Installed weights, staging files nobody owns, and what running transfers count for. */
    method TotalCommittedLocked() returns (total: nat)
      ensures total == Total(State())
    {
      total := AddUp(installed);
      var activePaths := set t | t in transfers :: transfers[t].path;
      var orphans := map p | p in staging && p !in activePaths :: staging[p];
      var abandoned := AddUp(orphans);
      var committed := map t | t in transfers :: transfers[t].Committed();
      var running := AddUp(committed);
      assert orphans == Orphans(State()) && committed == Commitments(State());
      total := total + abandoned + running;
    }

    /** Reserves budget for a download; id and path are made unique from the clock. */
    method StartTransfer(id: string, path: string, reservation: int) returns (ok: bool)
      requires id !in transfers && path !in ActivePaths(State()) && path !in staging
      modifies this
      ensures State() == Apply(old(State()), Start(id, path, reservation))
      ensures ok <==>
        if reservation > 0 then Total(Reserved(old(State()), id, path, reservation)) <= old(maxBudget)
        else Total(old(State())) < old(maxBudget)
    {
      hide Total;
      if reservation > 0 { StartTotal(State(), id, Transfer(reservation, 0, 0, path)); }
      var committed := TotalCommittedLocked();
      if reservation > 0 && committed + reservation > maxBudget {
        return false;
      }
      if reservation <= 0 && committed >= maxBudget {
        return false;
      }
      transfers := transfers[id := Transfer(if reservation <= 0 then 0 else reservation, 0, 0, path)];
      ok := true;
    }

    /** How much more the transfer commits with `delta` more bytes staged. */
    method ExtraNeeded(t: Transfer, delta: nat) returns (extraNeeded: int)
      ensures extraNeeded == t.(staged := t.staged + delta).Committed() - t.Committed()
    {
      var newStaged := t.staged + delta;
      var currCommitted := t.staged;
      if t.reservation > currCommitted {
        currCommitted := t.reservation;
      }
      var newCommitted := newStaged;
      if t.reservation > newCommitted {
        newCommitted := t.reservation;
      }
      extraNeeded := newCommitted - currCommitted;
    }

    /** Charges bytes about to be written against the file limit and the budget. */
    method ChargeTransfer(id: string, delta: int, maxSize: int) returns (ok: bool)
      modifies this
      ensures State() == Apply(old(State()), Charge(id, delta, maxSize))
      ensures delta <= 0 ==> ok
      ensures delta > 0 && id !in old(transfers) ==> !ok
      ensures delta > 0 && id in old(transfers) ==>
        var d2 := Staged(old(State()), id, delta);
        (ok <==> WithinFileLimit(old(State()), id, delta, maxSize) && (Total(d2) <= Total(old(State())) || Total(d2) <= old(maxBudget)))
    {
      hide Total, Transfer.Committed;
      if delta <= 0 {
        return true;
      }
      if id !in transfers {
        return false;
      }
      var t := transfers[id];
      if maxSize > 0 && t.staged + delta > maxSize {
        return false;
      }
      CommittedSame(t, delta);
      UpdateTotal(State(), id, t.(staged := t.staged + delta, pending := t.pending + delta));
      var extraNeeded := ExtraNeeded(t, delta);
      if extraNeeded > 0 {
        var committed := TotalCommittedLocked();
        if committed + extraNeeded > maxBudget {
          return false;
        }
      }
      transfers := transfers[id := t.(staged := t.staged + delta, pending := t.pending + delta)];
      ok := true;
    }

    method FinishTransfer(id: string)
      modifies this
      ensures State() == Apply(old(State()), Finish(id))
    {
      transfers := transfers - {id};
    }

    /** Moves the staged file into place, records it, and drops the transfer, all under the lock. */
    method CommitDownload(id: string, dest: string, recorded: bool)
      requires id in transfers && transfers[id].path in staging
      modifies this
      ensures State() == Apply(old(State()), Commit(id, dest, recorded))
    {
      var path := transfers[id].path;
      PlaceFile(dest, staging[path], recorded);
      staging := staging - {path};
      transfers := transfers - {id};
    }

    method PlaceFile(dest: string, size: nat, recorded: bool)
      modifies this`installed, this`unrecorded
      ensures State() == Place(old(State()), dest, size, recorded)
    {
      if recorded {
        installed := installed[dest := size];
        unrecorded := unrecorded - {dest};
      } else {
        installed := installed - {dest};
        unrecorded := unrecorded[dest := size];
      }
    }

    method ImportLocalArtifact(dest: string, size: nat, recorded: bool) returns (ok: bool)
      modifies this
      ensures State() == Apply(old(State()), Import(dest, size, recorded))
      ensures ok <==> Total(old(State())) + size <= old(maxBudget)
    {
      var committed := TotalCommittedLocked();
      if committed + size > maxBudget {
        return false;
      }
      PlaceFile(dest, size, recorded);
      ok := true;
    }

    method SetBudget(budget: int) returns (ok: bool)
      modifies this
      ensures State() == Apply(old(State()), SetMaxBudget(budget))
      ensures ok <==> budget > 0
    {
      if budget <= 0 {
        return false;
      }
      maxBudget := budget;
      ok := true;
    }
  }
  lemma CommittedSame(t: Transfer, delta: nat)
    ensures t.(staged := t.staged + delta, pending := t.pending + delta).Committed() == t.(staged := t.staged + delta).Committed()
    ensures t.(staged := t.staged + delta).Committed() >= t.Committed()
  {
  }
}
