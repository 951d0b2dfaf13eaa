/**
 What the admission checks answer, in terms of what the total would become, and how
 many bytes each step puts on the disk.
 */
module BudgetLaws {
  import opened Sums
  import opened Budget

  /** The disk with `delta` more bytes charged to a transfer. */
  function Staged(d: Disk, id: string, delta: nat): Disk
    requires id in d.transfers
  {
    var t := d.transfers[id];
    d.(transfers := d.transfers[id := t.(staged := t.staged + delta, pending := t.pending + delta)])
  }

  /** The disk with a new transfer. */
  function Reserved(d: Disk, id: string, path: string, reservation: nat): Disk {
    d.(transfers := d.transfers[id := Transfer(reservation, 0, 0, path)])
  }

  predicate WithinFileLimit(d: Disk, id: string, delta: nat, maxSize: int)
    requires id in d.transfers
  {
    maxSize <= 0 || d.transfers[id].staged + delta <= maxSize
  }

  /**
   A charge within the file limit is refused exactly when it would raise the total
   above the budget; otherwise exactly those bytes are staged. Nothing else is charged.
   */
  lemma ChargeRefusedExactly(d: Disk, id: string, delta: int, maxSize: int)
    ensures delta <= 0 || id !in d.transfers || !WithinFileLimit(d, id, delta, maxSize) ==> Apply(d, Charge(id, delta, maxSize)) == d
    ensures delta > 0 && id in d.transfers && WithinFileLimit(d, id, delta, maxSize) ==>
      var d2 := Staged(d, id, delta);
      Apply(d, Charge(id, delta, maxSize)) == if Total(d2) > Total(d) && Total(d2) > d.maxBudget then d else d2
  {
    hide Total;
    if delta > 0 && id in d.transfers && WithinFileLimit(d, id, delta, maxSize) {
      var t := d.transfers[id];
      UpdateTotal(d, id, t.(staged := t.staged + delta, pending := t.pending + delta));
    }
  }

  /** What a transfer has reserved it can stage: such charges are never refused by the budget, whatever else holds it. */
  lemma ReservedNeverRefused(d: Disk, id: string, delta: int, maxSize: int)
    requires delta > 0 && id in d.transfers && WithinFileLimit(d, id, delta, maxSize)
    requires d.transfers[id].staged + delta <= d.transfers[id].reservation
    ensures Apply(d, Charge(id, delta, maxSize)) == Staged(d, id, delta) != d
  {
    hide Total;
    assert Staged(d, id, delta).transfers[id].staged == d.transfers[id].staged + delta;
  }

  /**
   A new transfer of known size is refused exactly when it would raise the total above
   the budget, and one of unknown size exactly when no budget is left.
   */
  lemma StartRefusedExactly(d: Disk, id: string, path: string, reservation: int)
    requires id !in d.transfers && path !in ActivePaths(d) && path !in d.staging
    ensures reservation > 0 ==>
      var d2 := Reserved(d, id, path, reservation);
      Apply(d, Start(id, path, reservation)) == if Total(d2) > d.maxBudget then d else d2
    ensures reservation <= 0 ==>
      Apply(d, Start(id, path, reservation)) == if Total(d) >= d.maxBudget then d else Reserved(d, id, path, 0)
  {
    hide Total, ActivePaths;
    if reservation > 0 { StartTotal(d, id, Transfer(reservation, 0, 0, path)); }
  }

  /** An import to a new place is refused exactly when its manifest would raise the total above the budget. */
  lemma ImportRefusedExactly(d: Disk, dest: string, size: nat, recorded: bool)
    requires dest !in d.installed
    ensures var d2 := Place(d, dest, size, recorded);
      Apply(d, Import(dest, size, recorded)) == if Total(Place(d, dest, size, true)) > d.maxBudget then d else d2
  {
    hide Sum;
    var d2 := Place(d, dest, size, true);
    PathsSame(d, d2);
    OrphansSame(d, d2);
    assert Commitments(d2) == Commitments(d);
    SumPut(d.installed, dest, size);
  }

  lemma PathsSame(d: Disk, d2: Disk)
    requires d2.transfers == d.transfers
    ensures ActivePaths(d2) == ActivePaths(d)
  {
  }

  // ----- what the total is -----

  /** What a transfer was promised, or has staged if that is more, and is not on disk yet. */
  ghost function OwedTo(d: Disk, id: string): nat
    requires Inv(d) && id in d.transfers
  {
    var x := d.transfers[id];
    var promised := if x.reservation > x.staged then x.reservation else x.staged;
    if x.path in d.staging then
      assert d.staging[d.transfers[id].path] + d.transfers[id].pending <= d.transfers[id].staged;
      promised - d.staging[x.path]
    else promised
  }

  ghost function Owed(d: Disk): map<string, nat>
    requires Inv(d)
  {
    map t | t in d.transfers :: OwedTo(d, t)
  }

  /** The total is what is on disk under a manifest or in staging, and what transfers are still owed. */
  lemma TotalIsPromised(d: Disk)
    requires Inv(d)
    ensures Total(d) == Recorded(d) + Sum(Owed(d))
  {
    hide Inv, Sum, Orphans;
    StagingSplits(d);
    forall t | t in d.transfers ensures d.transfers[t].Committed() == OwedTo(d, t) + (if t in OwnFiles(d) then OwnFiles(d)[t] else 0) {
      OwedAndStaged(d, t);
    }
    SumOfParts(Commitments(d), Owed(d), OwnFiles(d));
  }

  lemma OwedAndStaged(d: Disk, t: string)
    requires Inv(d) && t in d.transfers
    ensures d.transfers[t].Committed() == OwedTo(d, t) + (if t in OwnFiles(d) then OwnFiles(d)[t] else 0)
  {
    if d.transfers[t].path in d.staging { FileStaged(d, t); }
    hide Inv;
    assert t in OwnFiles(d) <==> d.transfers[t].path in d.staging;
  }

  lemma FileStaged(d: Disk, t: string)
    requires Inv(d) && t in d.transfers && d.transfers[t].path in d.staging
    ensures d.staging[d.transfers[t].path] <= d.transfers[t].staged
  {
  }

  // ----- bytes on disk -----

  function At(m: map<string, nat>, k: string): nat {
    if k in m then m[k] else 0
  }

  /** How many bytes a step adds to the disk, or takes away. */
  function BytesAdded(d: Disk, step: Step): int {
    match step
    case Write(id, n) =>
      if id in d.transfers && n <= d.transfers[id].pending && d.transfers[id].path in d.staging then n else 0
    case Commit(id, dest, recorded) =>
      // the file moves and replaces what was at its place
      if id in d.transfers && d.transfers[id].path in d.staging then 0 - At(d.installed, dest) - At(d.unrecorded, dest) else 0
    case Discard(id) => if id in d.transfers then 0 - At(d.staging, d.transfers[id].path) else 0
    case Delete(dest) => 0 - At(d.installed, dest)
    case _ => 0
  }

  lemma PlaceBytes(d: Disk, dest: string, size: nat, recorded: bool)
    ensures Occupied(Place(d, dest, size, recorded)) == Occupied(d) + size - At(d.installed, dest) - At(d.unrecorded, dest)
  {
    hide Sum;
    SumPut(d.installed, dest, size);
    SumPut(d.unrecorded, dest, size);
    SumRemove(d.installed, dest);
    SumRemove(d.unrecorded, dest);
  }

  /** Bytes are conserved: every step but an import changes the bytes on disk by exactly that. */
  lemma BytesConserved(d: Disk, step: Step)
    requires !step.Import?
    ensures Occupied(Apply(d, step)) == Occupied(d) + BytesAdded(d, step)
  {
    hide Sum, Total, CanStart, CanCharge, Place;
    match step
    case Open(id) =>
      if id in d.transfers && d.transfers[id].path !in d.staging { SumPut(d.staging, d.transfers[id].path, 0); }
    case Write(id, n) =>
      if id in d.transfers && d.transfers[id].path in d.staging {
        SumPut(d.staging, d.transfers[id].path, d.staging[d.transfers[id].path] + n);
      }
    case Commit(id, dest, recorded) =>
      if id in d.transfers && d.transfers[id].path in d.staging { CommitBytes(d, id, dest, recorded); }
    case Discard(id) => if id in d.transfers { SumRemove(d.staging, d.transfers[id].path); }
    case Delete(dest) => SumRemove(d.installed, dest);
    case _ =>
  }

  lemma CommitBytes(d: Disk, id: string, dest: string, recorded: bool)
    requires id in d.transfers && d.transfers[id].path in d.staging
    ensures Occupied(Apply(d, Commit(id, dest, recorded))) == Occupied(d) - At(d.installed, dest) - At(d.unrecorded, dest)
  {
    hide Sum;
    var path := d.transfers[id].path;
    PlaceBytes(d, dest, d.staging[path], recorded);
    SumRemove(d.staging, path);
  }

  /** An admitted import adds its size, less what was at its place. */
  lemma ImportBytes(d: Disk, dest: string, size: nat, recorded: bool)
    requires Total(d) + size <= d.maxBudget
    ensures Occupied(Apply(d, Import(dest, size, recorded))) == Occupied(d) + size - At(d.installed, dest) - At(d.unrecorded, dest)
  {
    hide Sum, Total;
    PlaceBytes(d, dest, size, recorded);
  }

  /** A transfer that finishes, or whose file is committed, is forgotten; the others stay as they are. */
  lemma TransferEnds(d: Disk, id: string, dest: string, recorded: bool)
    ensures Apply(d, Finish(id)) == d.(transfers := d.transfers - {id})
    ensures id in d.transfers && d.transfers[id].path in d.staging ==>
      var d2 := Apply(d, Commit(id, dest, recorded));
      && d2.transfers == d.transfers - {id} && d2.staging == d.staging - {d.transfers[id].path}
      && At(if recorded then d2.installed else d2.unrecorded, dest) == d.staging[d.transfers[id].path]
  {
  }

  /** A positive budget is in force from the next admission on; any other is refused. */
  lemma BudgetInForce(d: Disk, budget: int, id: string, path: string, reservation: int)
    requires id !in d.transfers && path !in ActivePaths(d) && path !in d.staging && reservation > 0
    ensures var d1 := Apply(d, SetMaxBudget(budget));
      var limit := if budget > 0 then budget else d.maxBudget;
      id in Apply(d1, Start(id, path, reservation)).transfers <==> Total(Reserved(d, id, path, reservation)) <= limit
  {
    hide Total, ActivePaths;
    var d1 := Apply(d, SetMaxBudget(budget));
    BudgetTotal(d, budget);
    PathsSame(d, d1);
    StartTotal(d, id, Transfer(reservation, 0, 0, path));
    StartTotal(d1, id, Transfer(reservation, 0, 0, path));
    StartRefusedExactly(d1, id, path, reservation);
  }
}
