/** Finishing or undoing an announced move when the volume is mounted. */
module KuroMoveRecover {
  import opened Bytes
  import opened Options
  import opened KuroDisk
  import opened KuroBitmap
  import opened KuroAlloc
  import opened KuroExtent
  import opened KuroInode
  import opened KuroDirectory
  import opened KuroDirFrame
  import opened KuroVersion
  import opened KuroSuper
  import opened KuroRelease
  import opened KuroPlan
  import opened KuroMoveState

  // ----- What recovery decides -----

  predicate Matches(inode: Inode, p: Parent, after: bool) {
    && inode.id == p.id && inode.kind == DIRECTORY && inode.generation == p.generation && inode.linkCount == 1
    && inode.revision == p.revision + (if after then 1 else 0)
    && inode.size == (if after then p.sizeAfter else p.sizeBefore)
    && inode.extentStart == (if after then p.startAfter else p.startBefore)
    && inode.extentBlocks == (if after then p.blocksAfter else p.blocksBefore)
  }

  datatype Verdict = Undo | Finish | Complete | Refuse(error: Status)

  function Judge(m: Intent, child: Result<Inode>, source: Result<Inode>, destination: Result<Inode>): Verdict {
    if child.Failure? || child.value.generation != m.childGeneration || child.value.kind != m.childKind then
      Refuse(CorruptDirectory)
    else if source.Failure? then Refuse(source.error)
    else if destination.Failure? then Refuse(destination.error)
    else
      var sourceBefore, sourceAfter := Matches(source.value, m.source, false), Matches(source.value, m.source, true);
      var destinationBefore := Matches(destination.value, m.destination, false);
      var destinationAfter := Matches(destination.value, m.destination, true);
      if sourceBefore && destinationBefore then Undo
      else if sourceAfter && destinationBefore then Refuse(CorruptDirectory)
      else if (!sourceBefore && !sourceAfter) || (!destinationBefore && !destinationAfter) then Refuse(CorruptDirectory)
      else if sourceBefore then Finish
      else Complete
  }

  function VerdictAt(g: Geometry, crc: Checksum, d: Disk, m: Intent): Verdict
    requires g.Valid(|d|)
  {
    Judge(m, InodeAt(g, crc, d, m.childId), InodeAt(g, crc, d, m.source.id), InodeAt(g, crc, d, m.destination.id))
  }

  function AfterInode(before: Inode, p: Parent): Inode {
    before.(size := p.sizeAfter, extentStart := p.startAfter, extentBlocks := p.blocksAfter)
  }

  /** Both copies rewritten, the secondary first. */
  function PairPlan(crc: Checksum, s: Super): (r: seq<Op>)
    ensures |r| == 2
  {
    [SuperWrite(crc, 1, s), SuperWrite(crc, 0, s)]
  }

  /** The single-sector writes of a recovery, in order. */
  function RecoverPlan(g: Geometry, crc: Checksum, d: Disk, s: Super, m: Intent): seq<Op>
    requires g.Valid(|d|) && IntentValid(g, m)
  {
    var withdraw := PairPlan(crc, s.(move := None));
    match VerdictAt(g, crc, d, m)
    case Refuse(_) => []
    case Undo => withdraw
    case Complete => withdraw
    case Finish =>
      var source := InodeAt(g, crc, d, m.source.id).value;
      [PublishOp(g, crc, d, AfterInode(source, m.source).(revision := source.revision + 1))] + withdraw
  }

  function OldExtents(m: Intent): Two {
    Two(m.source.startBefore, m.source.blocksBefore, m.destination.startBefore, m.destination.blocksBefore)
  }

  function NewExtents(m: Intent): Two {
    Two(m.source.startAfter, m.source.blocksAfter, m.destination.startAfter, m.destination.blocksAfter)
  }

  /** The extents a recovery gives back: the new ones if it undoes the move, else the old ones. */
  ghost predicate Freed(g: Geometry, d: Disk, ops: seq<Op>, m: Intent, undo: bool) {
    FreeOps(g, d, ops, if undo then NewExtents(m) else OldExtents(m))
  }

  function Unused(m: Intent, undo: bool): Two {
    if undo then NewExtents(m) else OldExtents(m)
  }

  /** The device operations of one recovery, complete if done. */
  ghost predicate RecoverRan(g: Geometry, crc: Checksum, d: Disk, s: Super, m: Intent, ops: seq<Op>, done: bool)
    requires g.Valid(|d|) && IntentValid(g, m)
  {
    && (VerdictAt(g, crc, d, m).Refuse? ==> ops == [] && !done)
    && exists r, rel ::
         && ops == r + rel && Ran(RecoverPlan(g, crc, d, s, m), r, rel != [] || done) && (done ==> Settled(rel))
         && Freed(g, Apply(d, r), rel, m, VerdictAt(g, crc, d, m).Undo?)
         && (done ==> GivenBack(g, Apply(d, r), Apply(Apply(d, r), rel), Unused(m, VerdictAt(g, crc, d, m).Undo?)))
  }

  method WritePair(fs: FileSystem, s: Super) returns (status: Status)
    requires fs.Ready()
    modifies fs.device
    ensures old(fs.device.log) <= fs.device.log
    ensures fs.device.sectors == Apply(old(fs.device.sectors), fs.device.Since(|old(fs.device.log)|))
    ensures Ran(PairPlan(fs.checksum, s), fs.device.Since(|old(fs.device.log)|), status == Ok)
    ensures status in {Ok, BlockDeviceError} && (fs.device.reliable ==> status == Ok)
  {
    hide Apply, EncodeSuper;
    ghost var d0, n := fs.device.sectors, |fs.device.log|;
    ghost var plan := PairPlan(fs.checksum, s);
    ApplyNothing(d0);
    assert fs.device.Since(n) == [];
    PairSteps(plan);
    var sector := EncodeSuper(fs.checksum, s);
    status := WriteOne(fs, d0, n, 1, sector);
    if status != Ok {
      return;
    }
    status := FlushAll(fs, d0, n);
    if status != Ok {
      return;
    }
    status := WriteOne(fs, d0, n, 0, sector);
    if status != Ok {
      return;
    }
    status := FlushAll(fs, d0, n);
  }

  lemma PairSteps(plan: seq<Op>)
    requires |plan| == 2
    ensures Steps(plan) == [plan[0], Flush, plan[1], Flush]
  {
    var v, w := plan[0], plan[1];
    assert plan[..1] == [v] && [v][..0] == [];
    assert Steps([v]) == [] + [v, Flush];
    assert Steps(plan) == Steps([v]) + [w, Flush];
  }

  // ----- Recovery of a recoverable state -----

  lemma SaneIntent(g: Geometry, j: Job)
    requires Sane(g, j)
    ensures IntentValid(g, IntentOf(j))
  {
  }

  /** The verdict follows the two parents, and refuses only the state with the source alone updated. */
  lemma VerdictOf(g: Geometry, crc: Checksum, d: Disk, j: Job)
    requires g.Valid(|d|) && JobShape(g, j) && Sane(g, j) && ChildOk(g, crc, d, j)
    ensures At(g, crc, d, j, false, false) ==> VerdictAt(g, crc, d, IntentOf(j)) == Undo
    ensures At(g, crc, d, j, false, true) ==> VerdictAt(g, crc, d, IntentOf(j)) == Finish
    ensures At(g, crc, d, j, true, true) ==> VerdictAt(g, crc, d, IntentOf(j)) == Complete
    ensures At(g, crc, d, j, true, false) ==> VerdictAt(g, crc, d, IntentOf(j)) == Refuse(CorruptDirectory)
  {
    hide InodeAt, Writable;
  }

  lemma WithdrawStates(g: Geometry, crc: Checksum, d: Disk, j: Job, i: nat)
    requires Recoverable(g, crc, d, j) && !At(g, crc, d, j, false, true) && i <= 2
    ensures
      var e := Apply(d, PairPlan(crc, Clear(g, j))[..i]);
      && |e| == |d| && Recoverable(g, crc, e, j)
      && (forall s, t :: At(g, crc, e, j, s, t) <==> At(g, crc, d, j, s, t))
      && (forall s, t :: Full(g, crc, d, j, s, t) ==> Full(g, crc, e, j, s, t))
      && (i == 2 ==> !Announced(g, crc, e, j))
  {
    hide At, Full, Consistent, SuperAt, Sane, JobShape, SuperWrite, Apply;
    var v, w := SuperWrite(crc, 1, Clear(g, j)), SuperWrite(crc, 0, Clear(g, j));
    WithdrawKeeps(g, crc, d, j, 1);
    WithdrawKeeps(g, crc, ApplyOp(d, v), j, 0);
    TwoStates(d, v, w, i);
    if i == 2 {
      ClearIsQuiet(g, crc, ApplyOp(ApplyOp(d, v), w), j);
    }
  }

  lemma ClearIsQuiet(g: Geometry, crc: Checksum, d: Disk, j: Job)
    requires Quiet(g, crc, d, 0, j) && Quiet(g, crc, d, 1, j)
    ensures !Announced(g, crc, d, j)
  {
    hide SuperAt;
  }

  lemma FinishState(g: Geometry, crc: Checksum, d: Disk, j: Job)
    requires Recoverable(g, crc, d, j) && Full(g, crc, d, j, false, true) && Announces(g, crc, d, 0, j)
    ensures
      var e := ApplyOp(d, PublishOp(g, crc, d, j.src1.inode));
      Recoverable(g, crc, e, j) && Full(g, crc, e, j, true, true)
  {
    hide At, Full, Consistent, SuperAt, Sane, PublishOp;
    PublishSource(g, crc, d, j);
    FullIsAt(g, crc, ApplyOp(d, PublishOp(g, crc, d, j.src1.inode)), j, true, true);
  }

  /** In a recoverable, announced state all four versions are there. */
  lemma AnnouncedIsFull(g: Geometry, crc: Checksum, d: Disk, j: Job)
    requires Recoverable(g, crc, d, j) && Announced(g, crc, d, j)
    ensures || Full(g, crc, d, j, false, false)
            || (Full(g, crc, d, j, false, true) && Announces(g, crc, d, 0, j))
            || Full(g, crc, d, j, true, true)
  {
    hide Full, Consistent, SuperAt, Sane, JobShape;
  }

  lemma AtExclusive(g: Geometry, crc: Checksum, d: Disk, j: Job)
    requires g.Valid(|d|) && JobShape(g, j)
    ensures !(At(g, crc, d, j, false, true) && (At(g, crc, d, j, false, false) || At(g, crc, d, j, true, true)))
  {
    hide InodeAt;
  }

  /** With the destination alone updated: the source is published, then the announcement withdrawn. */
  lemma FinishPlanStates(g: Geometry, crc: Checksum, d: Disk, j: Job, i: nat)
    requires g.Valid(|d|) && Recoverable(g, crc, d, j) && 0 < j.src1.inode.id <= g.inodeCount && i <= 3
    requires Full(g, crc, d, j, false, true) && Announces(g, crc, d, 0, j)
    ensures
      var plan := [PublishOp(g, crc, d, j.src1.inode)] + PairPlan(crc, Clear(g, j));
      var e := Apply(d, plan[..i]);
      && |e| == |d| && Recoverable(g, crc, e, j)
      && (i == 3 ==> !Announced(g, crc, e, j) && Full(g, crc, e, j, true, true))
  {
    hide At, Full, Consistent, SuperAt, Sane, JobShape, PairPlan, Apply, PublishOp, Announced, Recoverable, Announces;
    var w, pair := PublishOp(g, crc, d, j.src1.inode), PairPlan(crc, Clear(g, j));
    var plan, d1 := [w] + pair, ApplyOp(d, w);
    FinishState(g, crc, d, j);
    if i == 0 {
      ApplyNothing(d);
    } else {
      RecoverableJob(g, crc, d1, j);
      FullIsAt(g, crc, d1, j, true, true);
      AtExclusive(g, crc, d1, j);
      assert plan[1..] == pair;
      ApplyHead(d, plan, i);
      WithdrawStates(g, crc, d1, j, i - 1);
    }
  }

  /** What a recovery writes, by the state of the two parents. */
  lemma RecoverPlanIs(g: Geometry, crc: Checksum, d: Disk, j: Job)
    requires g.Valid(|d|) && Recoverable(g, crc, d, j) && Announced(g, crc, d, j) && IntentValid(g, IntentOf(j))
    ensures
      var plan, v := RecoverPlan(g, crc, d, Announcement(g, j), IntentOf(j)), VerdictAt(g, crc, d, IntentOf(j));
      if At(g, crc, d, j, false, true) then
        && v == Finish && Full(g, crc, d, j, false, true) && Announces(g, crc, d, 0, j)
        && 0 < j.src1.inode.id <= g.inodeCount
        && plan == [PublishOp(g, crc, d, j.src1.inode)] + PairPlan(crc, Clear(g, j))
      else
        && (v == Undo || v == Complete) && Full(g, crc, d, j, v == Complete, v == Complete)
        && plan == PairPlan(crc, Clear(g, j))
  {
    hide At, Full, Consistent, SuperAt, Sane, JobShape, PairPlan, PublishOp, VerdictAt, Announced, Announces, InodeAt,
         IntentValid, Recoverable;
    RecoverableJob(g, crc, d, j);
    AnnouncedIsFull(g, crc, d, j);
    FullIsAt(g, crc, d, j, false, false);
    FullIsAt(g, crc, d, j, false, true);
    FullIsAt(g, crc, d, j, true, true);
    AtExclusive(g, crc, d, j);
    FullChild(g, crc, d, j);
    VerdictOf(g, crc, d, j);
    if At(g, crc, d, j, false, true) {
      FinishOp(g, crc, d, j);
    }
  }

  /** Each write of a recovery leads to a recoverable state, and the last one to a quiet one. */
  lemma RecoverStates(g: Geometry, crc: Checksum, d: Disk, j: Job, i: nat)
    requires g.Valid(|d|) && Recoverable(g, crc, d, j) && Announced(g, crc, d, j) && IntentValid(g, IntentOf(j))
    requires i <= |RecoverPlan(g, crc, d, Announcement(g, j), IntentOf(j))|
    ensures
      var plan := RecoverPlan(g, crc, d, Announcement(g, j), IntentOf(j));
      var e, after := Apply(d, plan[..i]), !VerdictAt(g, crc, d, IntentOf(j)).Undo?;
      && |e| == |d| && Recoverable(g, crc, e, j) && AllWrites(plan) && !VerdictAt(g, crc, d, IntentOf(j)).Refuse?
      && (i == |plan| ==> !Announced(g, crc, e, j) && Full(g, crc, e, j, after, after))
  {
    hide At, Full, Recoverable, RecoverPlan, Apply, PublishOp, VerdictAt, Announced, Announces, EncodeSuper,
         IntentValid;
    RecoverPlanIs(g, crc, d, j);
    if At(g, crc, d, j, false, true) {
      FinishPlanStates(g, crc, d, j, i);
    } else {
      WithdrawStates(g, crc, d, j, i);
    }
  }

  lemma FullChild(g: Geometry, crc: Checksum, d: Disk, j: Job)
    requires g.Valid(|d|)
    ensures Full(g, crc, d, j, false, false) || Full(g, crc, d, j, false, true) || Full(g, crc, d, j, true, true) ==>
      ChildOk(g, crc, d, j)
  {
  }

  /** The inode a completed move publishes for the source. */
  lemma FinishOp(g: Geometry, crc: Checksum, d: Disk, j: Job)
    requires g.Valid(|d|) && JobShape(g, j) && At(g, crc, d, j, false, true) && IntentValid(g, IntentOf(j))
    ensures
      var source := InodeAt(g, crc, d, IntentOf(j).source.id);
      && source == Success(j.src0.inode)
      && AfterInode(source.value, IntentOf(j).source).(revision := source.value.revision + 1) == j.src1.inode
  {
    hide InodeAt;
  }

  // ----- Giving back what is no longer used -----

  lemma FreedCarries(g: Geometry, crc: Checksum, d: Disk, e: Disk, v: Version, x: Two)
    requires g.Valid(|d|) && Carries(g, crc, d, v) && OnlyFreed(g, d, e, x)
    requires v.inode.extentBlocks == 0 || x.Spares(v.inode.extentStart, v.inode.extentBlocks)
    ensures Carries(g, crc, e, v)
  {
    hide SectorBit, InodeAt, SameChildren, Decoded, Flat;
    TableSameChildren(g, crc, d, e);
    if v.inode.size != 0 {
      forall y: nat | v.inode.extentStart <= y < v.inode.extentStart + v.inode.extentBlocks ensures Allocated(g, e, y) {
        assert Allocated(g, d, y);
        BitmapIndex(g, y);
      }
    }
    forall k: nat, n: nat | k < |d| && DirByte(v.inode, k, n) ensures e[k][n] == d[k][n] {
      DirBlockAllocated(g, d, v.inode, k, n);
    }
    CarriedOn(g, crc, d, e, v);
  }

  lemma FreedSupers(g: Geometry, crc: Checksum, d: Disk, e: Disk, j: Job, x: Two)
    requires g.Valid(|d|) && OnlyFreed(g, d, e, x)
    ensures SuperAt(crc, e, 0) == SuperAt(crc, d, 0) && SuperAt(crc, e, 1) == SuperAt(crc, d, 1)
    ensures forall s, t :: At(g, crc, e, j, s, t) <==> At(g, crc, d, j, s, t)
    ensures ChildOk(g, crc, e, j) <==> ChildOk(g, crc, d, j)
  {
    hide InodeAt, Allocated, DecodeSuper;
    TableSameInode(g, crc, d, e, j.src0.inode.id);
    TableSameInode(g, crc, d, e, j.dst0.inode.id);
    TableSameInode(g, crc, d, e, j.childId);
  }

  /** Once nothing is announced, the versions not in use can be given back. */
  lemma FreedKeeps(g: Geometry, crc: Checksum, d: Disk, e: Disk, j: Job, after: bool)
    requires g.Valid(|d|) && JobShape(g, j) && Full(g, crc, d, j, after, after)
    requires OnlyFreed(g, d, e, if after then OldExtents(IntentOf(j)) else NewExtents(IntentOf(j)))
    ensures |e| == |d| && Consistent(g, crc, e, j, after)
    ensures SuperAt(crc, e, 0) == SuperAt(crc, d, 0) && SuperAt(crc, e, 1) == SuperAt(crc, d, 1)
  {
    hide InodeAt, Carries, SuperAt, Owns, At, ChildOk, Allocated;
    var x := if after then OldExtents(IntentOf(j)) else NewExtents(IntentOf(j));
    FreedSupers(g, crc, d, e, j, x);
    FreedCarries(g, crc, d, e, if after then j.src1 else j.src0, x);
    FreedCarries(g, crc, d, e, if after then j.dst1 else j.dst0, x);
  }

  lemma FreedRecoverable(g: Geometry, crc: Checksum, d: Disk, e: Disk, j: Job, after: bool)
    requires Recoverable(g, crc, d, j) && !Announced(g, crc, d, j) && Full(g, crc, d, j, after, after)
    requires OnlyFreed(g, d, e, if after then OldExtents(IntentOf(j)) else NewExtents(IntentOf(j)))
    ensures Recoverable(g, crc, e, j) && !Announced(g, crc, e, j) && Consistent(g, crc, e, j, after)
  {
    hide Full, Consistent, SuperAt, Sane, OnlyFreed;
    FreedKeeps(g, crc, d, e, j, after);
  }

  /** Where a recovery is cut, the state is recoverable; where it completes, the move is settled. */
  lemma RecoverCut(g: Geometry, crc: Checksum, d: Disk, j: Job, ops: seq<Op>, done: bool, e: Disk)
    requires g.Valid(|d|) && Recoverable(g, crc, d, j) && Announced(g, crc, d, j) && IntentValid(g, IntentOf(j))
    requires RecoverRan(g, crc, d, Announcement(g, j), IntentOf(j), ops, done)
    ensures CrashPoint(d, ops, e) ==> Recoverable(g, crc, e, j)
    ensures
      var end, after := Apply(d, ops), !VerdictAt(g, crc, d, IntentOf(j)).Undo?;
      done ==> Settled(ops) && |end| == |d| && !Announced(g, crc, end, j) && Consistent(g, crc, end, j, after)
  {
    hide Recoverable, CrashPoint, Apply, Announced, RecoverPlan, VerdictAt, FreeOps, IntentValid, Consistent, Full;
    var m, plan := IntentOf(j), RecoverPlan(g, crc, d, Announcement(g, j), IntentOf(j));
    var after := !VerdictAt(g, crc, d, m).Undo?;
    var r, rel :|
      && ops == r + rel && Ran(plan, r, rel != [] || done) && (done ==> Settled(rel))
      && Freed(g, Apply(d, r), rel, m, VerdictAt(g, crc, d, m).Undo?);
    RecoverStates(g, crc, d, j, |plan|);
    assert plan[..|plan|] == plan;
    StepsApply(d, plan);
    StepsSettled(plan);
    var d1 := Apply(d, r);
    if CrashPoint(d, r, e) {
      var i := PlanCrashPoint(d, plan, r, e);
      RecoverStates(g, crc, d, j, i);
    }
    if rel == [] {
      assert ops == r;
      if done {
        FullIsAt(g, crc, d1, j, after, after);
      }
    } else {
      if CrashPoint(d, ops, e) {
        CrashPointSplit(d, r, rel, e);
        if CrashPoint(d1, rel, e) {
          FreeCut(g, d1, rel, if after then OldExtents(m) else NewExtents(m), e);
          FreedRecoverable(g, crc, d1, e, j, after);
        }
      }
      ApplyConcat(d, r, rel);
      FreeApply(g, d1, rel, if after then OldExtents(m) else NewExtents(m));
      FreedRecoverable(g, crc, d1, Apply(d1, rel), j, after);
    }
  }

  // ----- The operation -----

  /** Withdraws the announcement from both copies, then gives two extents back. */
  method WithdrawAndRelease(fs: FileSystem, clear: Super, a: U64, an: U64, b: U64, bn: U64)
    returns (status: Status, ghost r: seq<Op>, ghost rel: seq<Op>)
    requires fs.Ready()
    modifies fs.device
    ensures old(fs.device.log) <= fs.device.log
    ensures fs.device.sectors == Apply(old(fs.device.sectors), fs.device.Since(|old(fs.device.log)|))
    ensures fs.device.Since(|old(fs.device.log)|) == r + rel
    ensures Ran(PairPlan(fs.checksum, clear), r, rel != [] || status == Ok) && (status == Ok ==> Settled(rel))
    ensures status == Ok ==>
      var d := Apply(old(fs.device.sectors), r);
      GivenBack(fs.geometry, d, Apply(d, rel), Two(a, an, b, bn))
    ensures FreeOps(fs.geometry, Apply(old(fs.device.sectors), r), rel, Two(a, an, b, bn))
    ensures fs.device.reliable ==>
      Releasable(fs.geometry, Apply(old(fs.device.sectors), PairPlan(fs.checksum, clear)), a, an, b, bn) ==>
      status == Ok
  {
    hide Apply, Steps, FreeOp, ExtentStatus, PairPlan, GivenBack;
    ghost var d0, n := fs.device.sectors, |fs.device.log|;
    StepsApply(d0, PairPlan(fs.checksum, clear));
    rel := [];
    status := WritePair(fs, clear);
    r := fs.device.Since(n);
    if status != Ok {
      return;
    }
    ghost var n1 := |fs.device.log|;
    status := ReleasePair(fs, a, an, b, bn);
    Sequence(d0, fs.device.log, n, n1);
    assert fs.device.log[n..n1] == r;
    rel := fs.device.Since(n1);
  }

  lemma NothingRecovered(g: Geometry, crc: Checksum, d: Disk, s: Super, m: Intent)
    requires g.Valid(|d|) && IntentValid(g, m)
    ensures RecoverRan(g, crc, d, s, m, [], false)
  {
    hide VerdictAt, RecoverPlan, Apply, IntentValid, Steps;
    var none: seq<Op> := [];
    assert none == none + none && Ran(RecoverPlan(g, crc, d, s, m), none, none != [] || false);
    assert Freed(g, Apply(d, none), none, m, VerdictAt(g, crc, d, m).Undo?);
  }

  lemma RecoveredSo(
    g: Geometry, crc: Checksum, d: Disk, s: Super, m: Intent, ops: seq<Op>, r: seq<Op>, rel: seq<Op>, done: bool)
    requires g.Valid(|d|) && IntentValid(g, m) && !VerdictAt(g, crc, d, m).Refuse?
    requires ops == r + rel && Ran(RecoverPlan(g, crc, d, s, m), r, rel != [] || done) && (done ==> Settled(rel))
    requires Freed(g, Apply(d, r), rel, m, VerdictAt(g, crc, d, m).Undo?)
    requires done ==> GivenBack(g, Apply(d, r), Apply(Apply(d, r), rel), Unused(m, VerdictAt(g, crc, d, m).Undo?))
    ensures RecoverRan(g, crc, d, s, m, ops, done)
  {
    hide VerdictAt, RecoverPlan, Apply, IntentValid, Steps, Freed, GivenBack, Unused;
  }

  lemma RecoverPlanLow(g: Geometry, crc: Checksum, d: Disk, s: Super, m: Intent)
    requires g.Valid(|d|) && IntentValid(g, m)
    ensures
      var plan := RecoverPlan(g, crc, d, s, m);
      forall i :: 0 <= i < |plan| ==> LowOp(g, plan[i])
  {
    hide Matches, IntentValid, InodeAt, EncodeSuper, EncodeInode, Splice;
    if VerdictAt(g, crc, d, m).Finish? {
      var source := InodeAt(g, crc, d, m.source.id).value;
      FinishSourceFacts(g, crc, d, m, source);
      PublishIsLow(g, crc, d, AfterInode(source, m.source).(revision := source.revision + 1));
    }
  }

  /** A completed recovery has given back exactly the versions that are not in use. */
  lemma RecoverBits(g: Geometry, crc: Checksum, d: Disk, s: Super, m: Intent, ops: seq<Op>)
    requires g.Valid(|d|) && IntentValid(g, m) && RecoverRan(g, crc, d, s, m, ops, true)
    ensures GivenBack(g, d, Apply(d, ops), Unused(m, VerdictAt(g, crc, d, m).Undo?))
  {
    hide VerdictAt, RecoverPlan, Apply, IntentValid, Steps, Freed, Unused, Allocated;
    var plan, x := RecoverPlan(g, crc, d, s, m), Unused(m, VerdictAt(g, crc, d, m).Undo?);
    var r, rel :|
      && ops == r + rel && Ran(plan, r, true) && GivenBack(g, Apply(d, r), Apply(Apply(d, r), rel), x);
    RecoverPlanLow(g, crc, d, s, m);
    LowBits(g, d, plan);
    StepsApply(d, plan);
    ApplyConcat(d, r, rel);
    assert r == Steps(plan);
    BackFrom(g, d, Apply(d, r), Apply(d, ops), x);
  }

  lemma BackFrom(g: Geometry, d0: Disk, d: Disk, d': Disk, x: Two)
    requires SameBits(g, d0, d) && GivenBack(g, d, d', x)
    ensures GivenBack(g, d0, d', x)
  {
    hide Allocated;
  }

  ghost predicate CanRelease(g: Geometry, d: Disk, p: Parent, q: Parent, after: bool) {
    if after then Releasable(g, d, p.startAfter, p.blocksAfter, q.startAfter, q.blocksAfter)
    else Releasable(g, d, p.startBefore, p.blocksBefore, q.startBefore, q.blocksBefore)
  }

  lemma FullReleasable(g: Geometry, crc: Checksum, d: Disk, j: Job, s: bool, t: bool)
    requires g.Valid(|d|) && JobShape(g, j) && Full(g, crc, d, j, s, t)
    ensures CanRelease(g, d, IntentOf(j).source, IntentOf(j).destination, false)
    ensures CanRelease(g, d, IntentOf(j).source, IntentOf(j).destination, true)
  {
    hide InodeAt, Flat, Decoded, AllAllocated;
  }

  lemma FinishMayPublish(g: Geometry, crc: Checksum, d: Disk, j: Job)
    requires g.Valid(|d|) && JobShape(g, j) && IntentValid(g, IntentOf(j)) && Full(g, crc, d, j, false, true)
    ensures MayPublish(g, crc, d, AfterInode(j.src0.inode, IntentOf(j).source))
  {
    hide InodeAt, Flat, Decoded, AllAllocated;
  }

  /** On a device that does not fail, a recoverable, announced state lets a recovery through to the end. */
  lemma RecoverSucceeds(g: Geometry, crc: Checksum, d: Disk, j: Job)
    requires g.Valid(|d|) && Recoverable(g, crc, d, j) && Announced(g, crc, d, j) && IntentValid(g, IntentOf(j))
    ensures
      var m, v := IntentOf(j), VerdictAt(g, crc, d, IntentOf(j));
      var plan := RecoverPlan(g, crc, d, Announcement(g, j), m);
      && !v.Refuse?
      && CanRelease(g, Apply(d, plan), m.source, m.destination, v.Undo?)
      && (v.Finish? ==>
            && InodeAt(g, crc, d, m.source.id) == Success(j.src0.inode)
            && MayPublish(g, crc, d, AfterInode(j.src0.inode, m.source)))
  {
    hide Recoverable, Announced, InodeAt, Apply, Full, Consistent, RecoverPlan, At, IntentValid, JobShape, MayPublish,
         Sane, SuperAt, Judge;
    var m, plan := IntentOf(j), RecoverPlan(g, crc, d, Announcement(g, j), IntentOf(j));
    assert JobShape(g, j) && Sane(g, j) by { RecoverableJob(g, crc, d, j); }
    var after := !VerdictAt(g, crc, d, m).Undo?;
    RecoverStates(g, crc, d, j, |plan|);
    assert plan[..|plan|] == plan;
    FullReleasable(g, crc, Apply(d, plan), j, after, after);
    if VerdictAt(g, crc, d, m).Finish? {
      AnnouncedIsFull(g, crc, d, j);
      FullIsAt(g, crc, d, j, false, false);
      FullIsAt(g, crc, d, j, false, true);
      FullIsAt(g, crc, d, j, true, true);
      FullChild(g, crc, d, j);
      VerdictOf(g, crc, d, j);
      FinishMayPublish(g, crc, d, j);
      FinishOp(g, crc, d, j);
    }
  }

  lemma RecoverableJob(g: Geometry, crc: Checksum, d: Disk, j: Job)
    requires Recoverable(g, crc, d, j)
    ensures JobShape(g, j) && Sane(g, j) && CopiesOk(g, crc, d, j)
  {
  }

  /** The state j describes is announced on d, and s with the intent m is that announcement. */
  ghost predicate Pending(g: Geometry, crc: Checksum, d: Disk, j: Job, s: Super, m: Intent) {
    && Recoverable(g, crc, d, j) && Announced(g, crc, d, j)
    && s.(move := None) == Clear(g, j) && m == IntentOf(j)
  }

  method Recover(fs: FileSystem, s: Super, m: Intent, ghost j: Job) returns (status: Status)
    requires fs.Ready() && fs.mounted && IntentValid(fs.geometry, m)
    modifies fs.device
    ensures old(fs.device.log) <= fs.device.log
    ensures fs.device.sectors == Apply(old(fs.device.sectors), fs.device.Since(|old(fs.device.log)|))
    ensures RecoverRan(
      fs.geometry, fs.checksum, old(fs.device.sectors), s, m, fs.device.Since(|old(fs.device.log)|), status == Ok)
    // A device error while reading the child is reported as corruption too.
    ensures fs.device.reliable ==>
      var v := VerdictAt(fs.geometry, fs.checksum, old(fs.device.sectors), m);
      v.Refuse? ==> status == v.error
    ensures fs.device.reliable && Pending(fs.geometry, fs.checksum, old(fs.device.sectors), j, s, m) ==> status == Ok
    // The next versions are given back if the move was undone, else the old ones, and no other block.
    ensures status == Ok ==>
      GivenBack(fs.geometry, old(fs.device.sectors), fs.device.sectors,
                Unused(m, VerdictAt(fs.geometry, fs.checksum, old(fs.device.sectors), m).Undo?))
  {
    hide InodeAt, Apply, RecoverRan, IntentValid, Matches, Pending, RecoverPlan, VerdictAt, GivenBack, Unused;
    var g := fs.geometry;
    ghost var d0, n, crc := fs.device.sectors, |fs.device.log|, fs.checksum;
    ApplyNothing(d0);
    assert fs.device.Since(n) == [];
    NothingRecovered(g, crc, d0, s, m);
    VerdictIs(g, crc, d0, m);
    PendingIsLive(g, crc, d0, j, s, m);
    var child: Inode;
    status, child := ReadInode(fs, m.childId);
    if status != Ok || child.generation != m.childGeneration || child.kind != m.childKind {
      return CorruptDirectory;
    }
    var source: Inode, destination: Inode;
    status, source := ReadInode(fs, m.source.id);
    if status != Ok {
      return;
    }
    status, destination := ReadInode(fs, m.destination.id);
    if status != Ok {
      return;
    }
    var sourceBefore, sourceAfter := Matches(source, m.source, false), Matches(source, m.source, true);
    var destinationBefore := Matches(destination, m.destination, false);
    var destinationAfter := Matches(destination, m.destination, true);
    if sourceBefore && destinationBefore {
      status := Settle(fs, s, m, true, j);
      if status == Ok {
        RecoverBits(g, crc, d0, s, m, fs.device.Since(n));
      }
      return;
    }
    if sourceAfter && destinationBefore {
      return CorruptDirectory;
    }
    if !sourceBefore && !sourceAfter {
      return CorruptDirectory;
    }
    if !destinationBefore && !destinationAfter {
      return CorruptDirectory;
    }
    if sourceBefore {
      status := FinishSource(fs, s, m, source, j);
    } else {
      status := Settle(fs, s, m, false, j);
    }
    if status == Ok {
      RecoverBits(g, crc, d0, s, m, fs.device.Since(n));
    }
  }

  lemma VerdictIs(g: Geometry, crc: Checksum, d: Disk, m: Intent)
    requires g.Valid(|d|)
    ensures VerdictAt(g, crc, d, m)
         == Judge(m, InodeAt(g, crc, d, m.childId), InodeAt(g, crc, d, m.source.id),
                  InodeAt(g, crc, d, m.destination.id))
  {
  }

  lemma PendingIsLive(g: Geometry, crc: Checksum, d: Disk, j: Job, s: Super, m: Intent)
    requires g.Valid(|d|) && IntentValid(g, m)
    ensures Pending(g, crc, d, j, s, m) ==> !VerdictAt(g, crc, d, m).Refuse?
  {
    hide Recoverable, Announced, VerdictAt, RecoverPlan, InodeAt, IntentValid, MayPublish;
    if Pending(g, crc, d, j, s, m) {
      RecoverSucceeds(g, crc, d, j);
    }
  }

  /** Withdraws the announcement and gives the unused extents back: the new ones if the move is undone. */
  method Settle(fs: FileSystem, s: Super, m: Intent, undo: bool, ghost j: Job) returns (status: Status)
    requires fs.Ready() && IntentValid(fs.geometry, m)
    requires VerdictAt(fs.geometry, fs.checksum, fs.device.sectors, m) == if undo then Undo else Complete
    modifies fs.device
    ensures old(fs.device.log) <= fs.device.log
    ensures fs.device.sectors == Apply(old(fs.device.sectors), fs.device.Since(|old(fs.device.log)|))
    ensures RecoverRan(
      fs.geometry, fs.checksum, old(fs.device.sectors), s, m, fs.device.Since(|old(fs.device.log)|), status == Ok)
    ensures fs.device.reliable && Pending(fs.geometry, fs.checksum, old(fs.device.sectors), j, s, m) ==> status == Ok
  {
    hide InodeAt, Apply, IntentValid, Pending, VerdictAt, Steps, PairPlan, FreeOp, Releasable, GivenBack;
    var g, clear := fs.geometry, s.(move := None);
    ghost var d0, n, crc := fs.device.sectors, |fs.device.log|, fs.checksum;
    ghost var r, rel;
    PendingReleases(g, crc, d0, j, s, m);
    var p, q := m.source, m.destination;
    if undo {
      status, r, rel := WithdrawAndRelease(fs, clear, p.startAfter, p.blocksAfter, q.startAfter, q.blocksAfter);
    } else {
      status, r, rel := WithdrawAndRelease(fs, clear, p.startBefore, p.blocksBefore, q.startBefore, q.blocksBefore);
    }
    RecoveredSo(g, crc, d0, s, m, fs.device.Since(n), r, rel, status == Ok);
  }

  lemma PendingReleases(g: Geometry, crc: Checksum, d: Disk, j: Job, s: Super, m: Intent)
    requires g.Valid(|d|) && IntentValid(g, m)
    ensures Pending(g, crc, d, j, s, m) ==>
      var v := VerdictAt(g, crc, d, m);
      && CanRelease(g, Apply(d, RecoverPlan(g, crc, d, s, m)), m.source, m.destination, v.Undo?)
      && (v.Finish? ==>
            && InodeAt(g, crc, d, m.source.id) == Success(j.src0.inode)
            && MayPublish(g, crc, d, AfterInode(j.src0.inode, m.source))
            && FlagsAllowed(j.src0.inode.flags, s.features))
  {
    hide Recoverable, Announced, VerdictAt, InodeAt, IntentValid, MayPublish, CanRelease, Apply, PublishOp;
    if Pending(g, crc, d, j, s, m) {
      RecoverableJob(g, crc, d, j);
      RecoverSucceeds(g, crc, d, j);
    }
  }

  /** Publishes the source as the move announced it, then settles. */
  method FinishSource(fs: FileSystem, s: Super, m: Intent, source: Inode, ghost j: Job) returns (status: Status)
    requires fs.Ready() && fs.mounted && IntentValid(fs.geometry, m)
    requires VerdictAt(fs.geometry, fs.checksum, fs.device.sectors, m) == Finish
    requires InodeAt(fs.geometry, fs.checksum, fs.device.sectors, m.source.id) == Success(source)
    modifies fs.device
    ensures old(fs.device.log) <= fs.device.log
    ensures fs.device.sectors == Apply(old(fs.device.sectors), fs.device.Since(|old(fs.device.log)|))
    ensures RecoverRan(
      fs.geometry, fs.checksum, old(fs.device.sectors), s, m, fs.device.Since(|old(fs.device.log)|), status == Ok)
    ensures fs.device.reliable && Pending(fs.geometry, fs.checksum, old(fs.device.sectors), j, s, m) ==> status == Ok
  {
    hide InodeAt, Apply, IntentValid, Pending, VerdictAt, Steps, PairPlan, FreeOp, Releasable, MayPublish, PublishOp,
         RecoverRan, GivenBack;
    var g, clear := fs.geometry, s.(move := None);
    ghost var d0, n, crc := fs.device.sectors, |fs.device.log|, fs.checksum;
    PendingReleases(g, crc, d0, j, s, m);
    FinishSourceFacts(g, crc, d0, m, source);
    var candidate := AfterInode(source, m.source);
    var updated: Inode;
    status, updated := UpdateFlagged(fs, s.features, candidate);
    ghost var u, n1, d1 := fs.device.Since(n), |fs.device.log|, fs.device.sectors;
    UpdateRan(g, crc, d0, candidate, u, if status == Ok then Success(updated) else Failure(status));
    FinishPlan(g, crc, d0, s, m, source, u, status == Ok);
    if status != Ok {
      return;
    }
    ghost var r, rel;
    var p, q := m.source, m.destination;
    status, r, rel := WithdrawAndRelease(fs, clear, p.startBefore, p.blocksBefore, q.startBefore, q.blocksBefore);
    Sequence(d0, fs.device.log, n, n1);
    assert fs.device.log[n..n1] == u && u + (r + rel) == (u + r) + rel;
    ApplyConcat(d0, u, r);
    RanMore([PublishOp(g, crc, d0, candidate.(revision := source.revision + 1))], u,
            PairPlan(crc, clear), r, rel != [] || status == Ok);
    RecoveredSo(g, crc, d0, s, m, fs.device.Since(n), u + r, rel, status == Ok);
  }

  /** The update of the source as the first step of the plan. */
  lemma FinishPlan(
    g: Geometry, crc: Checksum, d: Disk, s: Super, m: Intent, source: Inode, ops: seq<Op>, done: bool)
    requires g.Valid(|d|) && IntentValid(g, m) && VerdictAt(g, crc, d, m) == Finish
    requires InodeAt(g, crc, d, m.source.id) == Success(source)
    requires 0 < source.id <= g.inodeCount && source.revision < UINT32_MAX
    requires Ran([PublishOp(g, crc, d, AfterInode(source, m.source).(revision := source.revision + 1))], ops, done)
    ensures
      var w, pair := PublishOp(g, crc, d, AfterInode(source, m.source).(revision := source.revision + 1)),
                     PairPlan(crc, s.(move := None));
      && RecoverPlan(g, crc, d, s, m) == [w] + pair
      && (done ==> Apply(d, ops) == Apply(d, [w]) && Apply(d, [w] + pair) == Apply(Apply(d, ops), pair))
    ensures !done ==> RecoverRan(g, crc, d, s, m, ops, false)
  {
    hide VerdictAt, InodeAt, IntentValid, PublishOp, Apply, PairPlan, Steps;
    var w, pair := PublishOp(g, crc, d, AfterInode(source, m.source).(revision := source.revision + 1)),
                   PairPlan(crc, s.(move := None));
    StepsApply(d, [w]);
    ApplyConcat(d, [w], pair);
    if !done {
      RanPart([w], ops, pair);
      assert ops == ops + [];
      RecoveredSo(g, crc, d, s, m, ops, ops, [], false);
    }
  }

  lemma FinishSourceFacts(g: Geometry, crc: Checksum, d: Disk, m: Intent, source: Inode)
    requires g.Valid(|d|) && IntentValid(g, m) && VerdictAt(g, crc, d, m) == Finish
    requires InodeAt(g, crc, d, m.source.id) == Success(source)
    ensures 0 < source.id <= g.inodeCount && source.revision < UINT32_MAX
  {
    hide InodeAt;
  }

  /** An update got as far as a prefix of its one flushed write. */
  lemma UpdateRan(g: Geometry, crc: Checksum, d: Disk, i: Inode, ops: seq<Op>, result: Result<Inode>)
    requires g.Valid(|d|) && 0 < i.id <= g.inodeCount && i.revision < UINT32_MAX
    requires UpdateSpec(g, crc, d, i, ops, result) || (ops == [] && result.Failure?)
    ensures Ran([PublishOp(g, crc, d, i.(revision := i.revision + 1))], ops, result.Success?)
    ensures result.Success? ==> result.value == i.(revision := i.revision + 1)
  {
    hide PublishOp, MayPublish;
    var w := PublishOp(g, crc, d, i.(revision := i.revision + 1));
    assert [w][..0] == [] && Steps([w]) == [w, Flush];
  }
}
