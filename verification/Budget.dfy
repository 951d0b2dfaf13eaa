/**
 The storage budget of downloaded weights: reservations and staged bytes of
 concurrent transfers, files on disk, and the lock-protected steps that admit,
 charge, commit and drop them. A run is any interleaving of these steps.
 */
module Budget {
  import opened Sums

  /** `pending` is what the transfer has been charged and not yet written to its staging file. */
  datatype Transfer = Transfer(reservation: nat, staged: nat, pending: nat, path: string) {
    /** What the transfer counts for: its reservation until it has staged more. */
    function Committed(): nat {
      if reservation > staged then reservation else staged
    }
  }

  /**
   Files by path: `installed` are weights with a manifest, `staging` the files of
   the staging directory, `unrecorded` weights that no manifest names.
   */
  datatype Disk = Disk(
    maxBudget: int,
    transfers: map<string, Transfer>,
    staging: map<string, nat>,
    installed: map<string, nat>,
    unrecorded: map<string, nat>)

  function ActivePaths(d: Disk): set<string> {
    set t | t in d.transfers :: d.transfers[t].path
  }

  /** Staging files no transfer owns, left behind by one that failed. */
  function Orphans(d: Disk): map<string, nat> {
    map p | p in d.staging && p !in ActivePaths(d) :: d.staging[p]
  }

  function Commitments(d: Disk): map<string, nat> {
    map t | t in d.transfers :: d.transfers[t].Committed()
  }

  /** What every admission is checked against. */
  ghost function Total(d: Disk): nat {
    Sum(d.installed) + Sum(Orphans(d)) + Sum(Commitments(d))
  }

  /** What recorded weights and staging files actually occupy. */
  ghost function Recorded(d: Disk): nat {
    Sum(d.installed) + Sum(d.staging)
  }

  ghost function Occupied(d: Disk): nat {
    Recorded(d) + Sum(d.unrecorded)
  }

  // ----- the steps -----

  datatype Step =
    | Start(id: string, path: string, reservation: int)
    | Open(id: string)
    | Charge(id: string, delta: int, maxSize: int)
    | Write(id: string, n: nat)
    | Commit(id: string, dest: string, recorded: bool)
    | Discard(id: string)                         // remove the staging file; may be refused by the system
    | Finish(id: string)
    | Import(dest: string, size: nat, recorded: bool)
    | Delete(dest: string)
    | SetMaxBudget(budget: int)

  ghost predicate CanStart(d: Disk, reservation: int) {
    if reservation > 0 then Total(d) + reservation <= d.maxBudget else Total(d) < d.maxBudget
  }

  /** Extra budget a transfer needs to stage `delta` more bytes. */
  function Extra(t: Transfer, delta: nat): nat {
    t.(staged := t.staged + delta).Committed() - t.Committed()
  }

  ghost predicate CanCharge(d: Disk, t: Transfer, delta: nat, maxSize: int) {
    !(maxSize > 0 && t.staged + delta > maxSize) && (Extra(t, delta) > 0 ==> Total(d) + Extra(t, delta) <= d.maxBudget)
  }

  /**
   Weights placed at `dest`, replacing what was there. `recorded` says that a manifest
   names them afterwards, be it the new one or an earlier one that a failed write left
   in place. None does when the write fails with no earlier one left, or when the bytes
   reached the cache and could not be linked, so that no manifest is attempted; such
   weights are not counted.
   */
  function Place(d: Disk, dest: string, size: nat, recorded: bool): Disk {
    if recorded then d.(installed := d.installed[dest := size], unrecorded := d.unrecorded - {dest})
    else d.(installed := d.installed - {dest}, unrecorded := d.unrecorded[dest := size])
  }

  /** One step; transfer ids and staging paths are new when a transfer starts. */
  ghost function Apply(d: Disk, step: Step): Disk {
    match step
    case Start(id, path, reservation) =>
      if id in d.transfers || path in ActivePaths(d) || path in d.staging || !CanStart(d, reservation) then d
      else d.(transfers := d.transfers[id := Transfer(if reservation <= 0 then 0 else reservation, 0, 0, path)])
    case Open(id) =>
      if id !in d.transfers || d.transfers[id].path in d.staging then d
      else d.(staging := d.staging[d.transfers[id].path := 0])
    case Charge(id, delta, maxSize) =>
      if delta <= 0 || id !in d.transfers || !CanCharge(d, d.transfers[id], delta, maxSize) then d
      else
        var t := d.transfers[id];
        d.(transfers := d.transfers[id := t.(staged := t.staged + delta, pending := t.pending + delta)])
    case Write(id, n) =>
      if id !in d.transfers || n > d.transfers[id].pending || d.transfers[id].path !in d.staging then d
      else
        var t := d.transfers[id];
        d.(transfers := d.transfers[id := t.(pending := t.pending - n)], staging := d.staging[t.path := d.staging[t.path] + n])
    case Commit(id, dest, recorded) =>
      if id !in d.transfers || d.transfers[id].path !in d.staging then d
      else
        var t := d.transfers[id];
        Place(d, dest, d.staging[t.path], recorded).(staging := d.staging - {t.path}, transfers := d.transfers - {id})
    case Discard(id) =>
      if id !in d.transfers then d else d.(staging := d.staging - {d.transfers[id].path})
    case Finish(id) => d.(transfers := d.transfers - {id})
    case Import(dest, size, recorded) =>
      if Total(d) + size > d.maxBudget then d else Place(d, dest, size, recorded)
    case Delete(dest) => d.(installed := d.installed - {dest})
    case SetMaxBudget(budget) => if budget <= 0 then d else d.(maxBudget := budget)
  }

  ghost function Run(d: Disk, steps: seq<Step>): Disk
    decreases |steps|
  {
    if steps == [] then d else Run(Apply(d, steps[0]), steps[1..])
  }

  // ----- what every step keeps -----

  /** Transfers own different files, and no file holds more than its transfer was charged. */
  ghost predicate Inv(d: Disk) {
    && (forall t, u :: t in d.transfers && u in d.transfers && d.transfers[t].path == d.transfers[u].path ==> t == u)
    && (forall t :: t in d.transfers && d.transfers[t].path in d.staging ==>
         d.staging[d.transfers[t].path] + d.transfers[t].pending <= d.transfers[t].staged)
    && (forall t :: t in d.transfers ==> d.transfers[t].pending <= d.transfers[t].staged)
  }

  lemma PathsAreActive(d: Disk)
    ensures forall u :: u in d.transfers ==> d.transfers[u].path in ActivePaths(d)
  {
  }

  lemma StartInv(d: Disk, id: string, t: Transfer)
    requires Inv(d) && t.path !in ActivePaths(d) && t.path !in d.staging && t.pending == 0
    ensures Inv(d.(transfers := d.transfers[id := t]))
  {
    hide ActivePaths;
    PathsAreActive(d);
  }

  lemma WriteInv(d: Disk, id: string, n: nat)
    requires Inv(d) && id in d.transfers && n <= d.transfers[id].pending && d.transfers[id].path in d.staging
    ensures Inv(Apply(d, Write(id, n)))
  {
  }

  lemma ApplyInv(d: Disk, step: Step)
    requires Inv(d)
    ensures Inv(Apply(d, step))
  {
    hide ActivePaths, CanStart, CanCharge, Total;
    match step
    case Start(id, path, reservation) =>
      if !(id in d.transfers || path in ActivePaths(d) || path in d.staging || !CanStart(d, reservation)) {
        StartInv(d, id, Transfer(if reservation <= 0 then 0 else reservation, 0, 0, path));
      }
    case Write(id, n) =>
      if !(id !in d.transfers || n > d.transfers[id].pending || d.transfers[id].path !in d.staging) { WriteInv(d, id, n); }
    case Open(id) =>
    case Charge(id, delta, maxSize) =>
    case Commit(id, dest, recorded) =>
    case Discard(id) =>
    case Finish(id) =>
    case Import(dest, size, recorded) =>
    case Delete(dest) =>
    case SetMaxBudget(budget) =>
  }

  /** Total changes only through the commitment, orphans and installed parts a step touches. */
  lemma CommitmentsPut(d: Disk, id: string, t: Transfer)
    ensures Commitments(d.(transfers := d.transfers[id := t])) == Commitments(d)[id := t.Committed()]
  {
  }

  lemma CommitmentsDrop(d: Disk, id: string)
    ensures Commitments(d.(transfers := d.transfers - {id})) == Commitments(d) - {id}
  {
  }

  lemma PathsPut(d: Disk, id: string, t: Transfer)
    requires id in d.transfers && d.transfers[id].path == t.path
    ensures ActivePaths(d.(transfers := d.transfers[id := t])) == ActivePaths(d)
  {
    var d2 := d.(transfers := d.transfers[id := t]);
    forall p | p in ActivePaths(d) ensures p in ActivePaths(d2) {
      var u :| u in d.transfers && d.transfers[u].path == p;
      assert d2.transfers[u].path == p;
    }
  }

  lemma PathsDrop(d: Disk, id: string, p: string)
    requires Inv(d) && id in d.transfers
    ensures p in ActivePaths(d.(transfers := d.transfers - {id})) <==> p in ActivePaths(d) && p != d.transfers[id].path
  {
    var d2 := d.(transfers := d.transfers - {id});
    if p in ActivePaths(d) && p != d.transfers[id].path {
      var u :| u in d.transfers && d.transfers[u].path == p;
      assert u in d2.transfers && d2.transfers[u].path == p;
    }
    if p in ActivePaths(d2) {
      var u :| u in d2.transfers && d2.transfers[u].path == p;
      assert d.transfers[u].path == p;
    }
  }

  // ----- how each step moves the total -----

  lemma OrphansSame(d: Disk, d2: Disk)
    requires d2.staging == d.staging && ActivePaths(d2) == ActivePaths(d)
    ensures Orphans(d2) == Orphans(d)
  {
  }

  /** A change to a file some transfer owns does not touch the orphans. */
  lemma OwnFileKeepsOrphans(d: Disk, id: string, staging2: map<string, nat>)
    requires id in d.transfers
    requires forall p :: p != d.transfers[id].path ==> (p in d.staging <==> p in staging2) && (p in d.staging ==> d.staging[p] == staging2[p])
    ensures Orphans(d.(staging := staging2)) == Orphans(d)
  {
  }

  lemma UpdateTotal(d: Disk, id: string, t: Transfer)
    requires id in d.transfers && d.transfers[id].path == t.path
    ensures Total(d.(transfers := d.transfers[id := t])) == Total(d) - d.transfers[id].Committed() + t.Committed()
  {
    var d2 := d.(transfers := d.transfers[id := t]);
    CommitmentsPut(d, id, t);
    PathsPut(d, id, t);
    OrphansSame(d, d2);
    SumPut(Commitments(d), id, t.Committed());
  }

  lemma StartTotal(d: Disk, id: string, t: Transfer)
    requires id !in d.transfers && t.path !in d.staging
    ensures Total(d.(transfers := d.transfers[id := t])) == Total(d) + t.Committed()
  {
    var d2 := d.(transfers := d.transfers[id := t]);
    CommitmentsPut(d, id, t);
    SumPut(Commitments(d), id, t.Committed());
    forall p | p in d.staging ensures p in ActivePaths(d2) <==> p in ActivePaths(d) {
      if p in ActivePaths(d) {
        var u :| u in d.transfers && d.transfers[u].path == p;
        assert d2.transfers[u].path == p;
      }
    }
    assert Orphans(d2) == Orphans(d);
  }

  /** Dropping a transfer turns its file, if still there, into an orphan. */
  lemma OrphansAfterDrop(d: Disk, id: string)
    requires Inv(d) && id in d.transfers
    ensures Sum(Orphans(d.(transfers := d.transfers - {id}))) ==
      Sum(Orphans(d)) + (if d.transfers[id].path in d.staging then d.staging[d.transfers[id].path] else 0)
  {
    var t := d.transfers[id];
    var d2 := d.(transfers := d.transfers - {id});
    forall p ensures p in ActivePaths(d2) <==> p in ActivePaths(d) && p != t.path { PathsDrop(d, id, p); }
    assert t.path in ActivePaths(d);
    if t.path in d.staging {
      assert Orphans(d2) == Orphans(d)[t.path := d.staging[t.path]];
      SumPut(Orphans(d), t.path, d.staging[t.path]);
    } else {
      assert Orphans(d2) == Orphans(d);
    }
  }

  /** Dropping a transfer releases its commitment and, if its file is still there, leaves it as an orphan. */
  lemma DropTotal(d: Disk, id: string)
    requires Inv(d) && id in d.transfers
    ensures var t := d.transfers[id];
      Total(d.(transfers := d.transfers - {id})) ==
        Total(d) - t.Committed() + (if t.path in d.staging then d.staging[t.path] else 0)
  {
    var t := d.transfers[id];
    var d2 := d.(transfers := d.transfers - {id});
    CommitmentsDrop(d, id);
    SumRemove(Commitments(d), id);
    OrphansAfterDrop(d, id);
  }

  lemma FileTotal(d: Disk, id: string, staging2: map<string, nat>)
    requires id in d.transfers
    requires forall p :: p != d.transfers[id].path ==> (p in d.staging <==> p in staging2) && (p in d.staging ==> d.staging[p] == staging2[p])
    ensures Total(d.(staging := staging2)) == Total(d)
  {
    OwnFileKeepsOrphans(d, id, staging2);
    assert Commitments(d.(staging := staging2)) == Commitments(d);
  }

  lemma PlaceTotal(d: Disk, dest: string, size: nat, recorded: bool)
    ensures Total(Place(d, dest, size, recorded)) <= Total(d) + size
  {
    var d2 := Place(d, dest, size, recorded);
    assert ActivePaths(d2) == ActivePaths(d);
    OrphansSame(d, d2);
    assert Commitments(d2) == Commitments(d);
    SumPut(d.installed, dest, size);
    SumRemove(d.installed, dest);
  }

  lemma CommitTotal(d: Disk, id: string, dest: string, recorded: bool)
    requires Inv(d) && id in d.transfers && d.transfers[id].path in d.staging
    ensures Total(Apply(d, Commit(id, dest, recorded))) <= Total(d)
  {
    var t := d.transfers[id];
    var size := d.staging[t.path];
    var d1 := d.(staging := d.staging - {t.path});
    FileTotal(d, id, d.staging - {t.path});
    assert Inv(d1);
    DropTotal(d1, id);
    var d2 := d1.(transfers := d1.transfers - {id});
    PlaceTotal(d2, dest, size, recorded);
    assert Apply(d, Commit(id, dest, recorded)) == Place(d2, dest, size, recorded);
  }

  /**
   No step raises the total above the budget: after any step it is no more than
   before, or within the budget in force.
   */
  lemma StepBounded(d: Disk, step: Step)
    requires Inv(d)
    ensures Total(Apply(d, step)) <= Total(d) || Total(Apply(d, step)) <= Apply(d, step).maxBudget
  {
    hide Total, ActivePaths, Inv;
    match step
    case Start(id, path, reservation) =>
      if !(id in d.transfers || path in ActivePaths(d) || path in d.staging || !CanStart(d, reservation)) {
        StartTotal(d, id, Transfer(if reservation <= 0 then 0 else reservation, 0, 0, path));
      }
    case Open(id) =>
      if id in d.transfers && d.transfers[id].path !in d.staging { FileTotal(d, id, d.staging[d.transfers[id].path := 0]); }
    case Charge(id, delta, maxSize) =>
      if !(delta <= 0 || id !in d.transfers || !CanCharge(d, d.transfers[id], delta, maxSize)) {
        var t := d.transfers[id];
        UpdateTotal(d, id, t.(staged := t.staged + delta, pending := t.pending + delta));
      }
    case Write(id, n) =>
      if !(id !in d.transfers || n > d.transfers[id].pending || d.transfers[id].path !in d.staging) {
        WriteTotal(d, id, n);
      }
    case Commit(id, dest, recorded) =>
      if id in d.transfers && d.transfers[id].path in d.staging { CommitTotal(d, id, dest, recorded); }
    case Discard(id) =>
      if id in d.transfers { FileTotal(d, id, d.staging - {d.transfers[id].path}); }
    case Finish(id) =>
      FinishTotal(d, id);
    case Import(dest, size, recorded) =>
      PlaceTotal(d, dest, size, recorded);
    case Delete(dest) =>
      DeleteTotal(d, dest);
    case SetMaxBudget(budget) =>
      BudgetTotal(d, budget);
  }

  lemma WriteTotal(d: Disk, id: string, n: nat)
    requires id in d.transfers && n <= d.transfers[id].pending && d.transfers[id].path in d.staging
    ensures Total(Apply(d, Write(id, n))) == Total(d)
  {
    var t := d.transfers[id];
    var d1 := d.(transfers := d.transfers[id := t.(pending := t.pending - n)]);
    UpdateTotal(d, id, t.(pending := t.pending - n));
    FileTotal(d1, id, d.staging[t.path := d.staging[t.path] + n]);
  }

  lemma FileFits(d: Disk, id: string)
    requires Inv(d) && id in d.transfers && d.transfers[id].path in d.staging
    ensures d.staging[d.transfers[id].path] <= d.transfers[id].Committed()
  {
  }

  lemma FinishTotal(d: Disk, id: string)
    requires Inv(d)
    ensures Total(Apply(d, Finish(id))) <= Total(d)
  {
    hide Total, Inv;
    if id in d.transfers {
      if d.transfers[id].path in d.staging { FileFits(d, id); }
      DropTotal(d, id);
    } else {
      assert d.(transfers := d.transfers - {id}) == d;
    }
  }

  lemma DeleteTotal(d: Disk, dest: string)
    ensures Total(Apply(d, Delete(dest))) <= Total(d)
  {
    var d2 := Apply(d, Delete(dest));
    SumRemove(d.installed, dest);
    OrphansSame(d, d2);
    assert Commitments(d2) == Commitments(d);
  }

  lemma BudgetTotal(d: Disk, budget: int)
    ensures Total(Apply(d, SetMaxBudget(budget))) == Total(d)
  {
  }

  // ----- whole runs -----

  lemma {:induction false} RunInv(d: Disk, steps: seq<Step>)
    requires Inv(d)
    ensures Inv(Run(d, steps))
    decreases |steps|
  {
    hide Inv, Apply;
    if steps != [] {
      ApplyInv(d, steps[0]);
      RunInv(Apply(d, steps[0]), steps[1..]);
    }
  }

  /** A step that does not set the budget below what is committed. */
  ghost predicate DoesNotLower(d: Disk, step: Step) {
    step.SetMaxBudget? && step.budget > 0 ==> Total(d) <= step.budget
  }

  ghost predicate NeverLowered(d: Disk, steps: seq<Step>)
    decreases |steps|
  {
    steps == [] || (DoesNotLower(d, steps[0]) && NeverLowered(Apply(d, steps[0]), steps[1..]))
  }

  lemma BudgetKept(d: Disk, step: Step)
    requires Inv(d) && Total(d) <= d.maxBudget && DoesNotLower(d, step)
    ensures Total(Apply(d, step)) <= Apply(d, step).maxBudget
  {
    hide Total, Inv;
    StepBounded(d, step);
    if step.SetMaxBudget? { BudgetTotal(d, step.budget); }
    assert !step.SetMaxBudget? ==> Apply(d, step).maxBudget == d.maxBudget;
  }

  /** While the budget is never set below what is committed, the total stays within it through every interleaving. */
  lemma {:induction false} WithinBudget(d: Disk, steps: seq<Step>)
    requires Inv(d) && Total(d) <= d.maxBudget && NeverLowered(d, steps)
    ensures Total(Run(d, steps)) <= Run(d, steps).maxBudget
    decreases |steps|
  {
    hide Total, Inv, Apply, DoesNotLower;
    if steps != [] {
      BudgetKept(d, steps[0]);
      ApplyInv(d, steps[0]);
      WithinBudget(Apply(d, steps[0]), steps[1..]);
    }
  }

  ghost predicate NoBudgetChange(steps: seq<Step>) {
    forall i :: 0 <= i < |steps| ==> !steps[i].SetMaxBudget?
  }

  /** With the budget below the total, no interleaving makes the total grow. */
  lemma {:induction false} NeverGrowsAboveBudget(d: Disk, steps: seq<Step>)
    requires Inv(d) && Total(d) >= d.maxBudget && NoBudgetChange(steps)
    ensures Total(Run(d, steps)) <= Total(d)
    decreases |steps|
  {
    hide Total, Inv, Apply;
    if steps != [] {
      var d1 := Apply(d, steps[0]);
      StepBounded(d, steps[0]);
      SameBudget(d, steps[0]);
      ApplyInv(d, steps[0]);
      if Total(d1) >= d1.maxBudget {
        NeverGrowsAboveBudget(d1, steps[1..]);
      } else {
        StaysUnder(d1, steps[1..]);
      }
    }
  }

  lemma SameBudget(d: Disk, step: Step)
    requires !step.SetMaxBudget?
    ensures Apply(d, step).maxBudget == d.maxBudget
  {
  }

  lemma {:induction false} StaysUnder(d: Disk, steps: seq<Step>)
    requires Inv(d) && Total(d) <= d.maxBudget && NoBudgetChange(steps)
    ensures Total(Run(d, steps)) <= d.maxBudget
    decreases |steps|
  {
    hide Total, Inv, Apply;
    if steps != [] {
      StepBounded(d, steps[0]);
      SameBudget(d, steps[0]);
      ApplyInv(d, steps[0]);
      StaysUnder(Apply(d, steps[0]), steps[1..]);
    }
  }

  // ----- what is really on the disk -----

  /** Staging files of running transfers, by transfer. */
  function OwnFiles(d: Disk): map<string, nat> {
    map t | t in d.transfers && d.transfers[t].path in d.staging :: d.staging[d.transfers[t].path]
  }

  lemma NoTransfers(d: Disk)
    requires d.transfers.Keys == {}
    ensures Orphans(d) == d.staging && Commitments(d) == map[] && OwnFiles(d) == map[] && Sum<string>(map[]) == 0
  {
  }

  lemma DropInv(d: Disk, id: string)
    requires Inv(d)
    ensures Inv(d.(transfers := d.transfers - {id}))
  {
  }

  lemma OwnFilesAfterDrop(d: Disk, id: string)
    requires id in d.transfers
    ensures Sum(OwnFiles(d.(transfers := d.transfers - {id}))) ==
      Sum(OwnFiles(d)) - (if d.transfers[id].path in d.staging then d.staging[d.transfers[id].path] else 0)
  {
    assert OwnFiles(d.(transfers := d.transfers - {id})) == OwnFiles(d) - {id};
    SumRemove(OwnFiles(d), id);
  }

  /** Staging files split into those some transfer owns and the orphans. */
  lemma {:induction false} StagingSplits(d: Disk)
    requires Inv(d)
    ensures Sum(d.staging) == Sum(OwnFiles(d)) + Sum(Orphans(d))
    decreases d.transfers.Keys
  {
    hide Inv, Orphans, OwnFiles, Sum;
    if d.transfers.Keys == {} {
      NoTransfers(d);
    } else {
      var id :| id in d.transfers.Keys;
      var d2 := d.(transfers := d.transfers - {id});
      DropInv(d, id);
      StagingSplits(d2);
      OrphansAfterDrop(d, id);
      OwnFilesAfterDrop(d, id);
    }
  }

  /** Recorded weights and staging files never occupy more than is committed. */
  lemma RecordedWithinTotal(d: Disk)
    requires Inv(d)
    ensures Recorded(d) <= Total(d)
  {
    StagingSplits(d);
    SumMonotone(OwnFiles(d), Commitments(d));
  }

  lemma IdleDisk(d: Disk)
    requires d.transfers == map[]
    ensures Occupied(d) == Total(d) + Sum(d.unrecorded)
  {
    NoTransfers(d);
  }

  lemma OneUnrecorded(dest: string, size: nat)
    ensures Sum<string>(map[]) == 0 && Sum(map[dest := size]) == size
  {
    var none: map<string, nat> := map[];
    SumPut(none, dest, size);
    assert none[dest := size] == map[dest := size];
  }

  /**
   An admitted import onto an idle disk whose weights all have manifests leaves the
   disk within the total exactly when a manifest names it afterwards or it is empty.
   */
  lemma ImportEscapesExactly(d: Disk, dest: string, size: nat, recorded: bool)
    requires d.transfers == map[] && d.unrecorded == map[] && Total(d) + size <= d.maxBudget
    ensures var d2 := Apply(d, Import(dest, size, recorded));
      Occupied(d2) <= Total(d2) <==> recorded || size == 0
  {
    hide Sum, Total, Occupied;
    var d2 := Apply(d, Import(dest, size, recorded));
    IdleDisk(d2);
    OneUnrecorded(dest, size);
    assert d2.unrecorded == if recorded then map[] else map[dest := size];
  }

  /** The same for committing the last running download. */
  lemma CommitEscapesExactly(d: Disk, id: string, dest: string, recorded: bool)
    requires d.transfers.Keys == {id} && d.unrecorded == map[] && d.transfers[id].path in d.staging
    ensures var d2 := Apply(d, Commit(id, dest, recorded));
      Occupied(d2) <= Total(d2) <==> recorded || d.staging[d.transfers[id].path] == 0
  {
    hide Sum, Total, Occupied;
    var d2 := Apply(d, Commit(id, dest, recorded));
    var size := d.staging[d.transfers[id].path];
    assert d2.transfers == map[];
    IdleDisk(d2);
    OneUnrecorded(dest, size);
    assert d2.unrecorded == if recorded then map[] else map[dest := size];
  }

  /** After each placement a manifest names the weights. */
  ghost predicate ManifestsName(steps: seq<Step>) {
    forall i :: 0 <= i < |steps| ==>
      (steps[i].Commit? ==> steps[i].recorded) && (steps[i].Import? ==> steps[i].recorded)
  }

  lemma {:induction false} NothingUnrecorded(d: Disk, steps: seq<Step>)
    requires d.unrecorded == map[] && ManifestsName(steps)
    ensures Run(d, steps).unrecorded == map[]
    decreases |steps|
  {
    hide Total, CanStart, CanCharge;
    if steps != [] {
      assert Apply(d, steps[0]).unrecorded == map[];
      NothingUnrecorded(Apply(d, steps[0]), steps[1..]);
    }
  }

  /**
   Over every run from an empty disk, recorded weights and staging files stay within
   the total and the total within the budget; when manifests name everything placed,
   so does everything on the disk.
   */
  lemma DiskWithinBudget(budget: nat, steps: seq<Step>)
    requires var d := Disk(budget, map[], map[], map[], map[]); NeverLowered(d, steps)
    ensures var d := Run(Disk(budget, map[], map[], map[], map[]), steps);
      && Recorded(d) <= Total(d) <= d.maxBudget
      && (ManifestsName(steps) ==> Occupied(d) <= Total(d))
  {
    hide Inv, Run, Total, NeverLowered, ManifestsName;
    var d := Disk(budget, map[], map[], map[], map[]);
    EmptyDisk(budget);
    WithinBudget(d, steps);
    RunInv(d, steps);
    RecordedWithinTotal(Run(d, steps));
    if ManifestsName(steps) { NothingUnrecorded(d, steps); }
    NoTransfers(d);
  }

  /**
   Without their manifests, weights escape the budget: two imports of ten bytes
   each are admitted to an empty disk with a budget of ten.
   */
  lemma UnrecordedWeightsEscape()
    ensures var d := Run(Disk(10, map[], map[], map[], map[]), [Import("a", 10, false), Import("b", 10, false)]);
      Total(d) == 0 && Occupied(d) == 20 && d.maxBudget == 10
  {
    hide Sum, Orphans, Commitments;
    var d0 := Disk(10, map[], map[], map[], map[]);
    var d1 := Disk(10, map[], map[], map[], map["a" := 10]);
    var d2 := Disk(10, map[], map[], map[], map["a" := 10, "b" := 10]);
    var steps := [Import("a", 10, false), Import("b", 10, false)];
    NothingCounted(d0);
    NothingCounted(d1);
    NothingCounted(d2);
    assert Apply(d0, steps[0]) == d1 && Apply(d1, steps[1]) == d2;
    assert Run(d2, []) == d2;
    assert steps[1..] == [steps[1]] && steps[1..][1..] == [];
    assert Run(d1, steps[1..]) == Run(d2, steps[1..][1..]);
    SumPut(map[], "a", 10);
    SumPut(map["a" := 10], "b", 10);
    assert map["a" := 10] == map[]["a" := 10] && d2.unrecorded == map["a" := 10]["b" := 10];
  }

  lemma NothingCounted(d: Disk)
    requires d.transfers == map[] && d.staging == map[] && d.installed == map[]
    ensures Total(d) == 0 && Recorded(d) == 0 && Sum<string>(map[]) == 0
  {
  }

  lemma EmptyDisk(budget: nat)
    ensures var d := Disk(budget, map[], map[], map[], map[]); Inv(d) && Total(d) == 0
  {
  }
}
