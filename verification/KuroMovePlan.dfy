/** The single-sector writes of a move, and the states each of them leads to. */
module KuroMovePlan {
  import opened KuroDisk
  import opened KuroBitmap
  import opened KuroExtent
  import opened KuroInode
  import opened KuroDirectory
  import opened KuroVersion
  import opened KuroSuper
  import opened KuroRelease
  import opened KuroPlan
  import opened KuroMoveState
  import opened KuroMoveRecover

  // ----- The writes of a move -----

  /** The two publications: the destination, then the source over the table that leaves. */
  function ParentPlan(g: Geometry, crc: Checksum, d: Disk, j: Job): (r: seq<Op>)
    requires g.Valid(|d|) && JobShape(g, j)
    ensures |r| == 2
  {
    var first := PublishOp(g, crc, d, j.dst1.inode);
    [first, PublishOp(g, crc, ApplyOp(d, first), j.src1.inode)]
  }

  /** Announce in both copies, publish both parents, withdraw from both copies. */
  function MovePlan(g: Geometry, crc: Checksum, d: Disk, j: Job): (r: seq<Op>)
    requires g.Valid(|d|) && JobShape(g, j)
    ensures |r| == 6
  {
    var announce := PairPlan(crc, Announcement(g, j));
    announce + ParentPlan(g, crc, Apply(d, announce), j) + PairPlan(crc, Clear(g, j))
  }

  /** A copy that is current and quiet, or one that mounting ignores. */
  predicate QuietCopy(crc: Checksum, d: Disk, block: nat, clear: Super, stale: bool) {
    var s := SuperAt(crc, d, block);
    if stale then
      s.Success? ==>
        s.value.geometry == clear.geometry && s.value.generation < clear.generation && s.value.move.None?
    else s == Success(clear)
  }

  /** The superblock copies of a volume on which no move is under way: at least one is current. */
  predicate QuietCopies(crc: Checksum, d: Disk, clear: Super) {
    || (QuietCopy(crc, d, 0, clear, false) && (QuietCopy(crc, d, 1, clear, false) || QuietCopy(crc, d, 1, clear, true)))
    || (QuietCopy(crc, d, 0, clear, true) && QuietCopy(crc, d, 1, clear, false))
  }

  // ----- The state after each write -----

  lemma QuietIsRecoverable(g: Geometry, crc: Checksum, d: Disk, j: Job)
    requires g.Valid(|d|) && JobShape(g, j) && Sane(g, j) && QuietCopies(crc, d, Clear(g, j))
    requires Full(g, crc, d, j, false, false)
    ensures Recoverable(g, crc, d, j)
  {
    hide SuperAt, Full, JobShape, Sane;
    FullIsAt(g, crc, d, j, false, false);
  }

  /** A superblock write keeps all four versions and both parents as they are. */
  lemma PairFull(g: Geometry, crc: Checksum, d: Disk, j: Job, x: Super, srcAfter: bool, dstAfter: bool, i: nat)
    requires g.Valid(|d|) && Full(g, crc, d, j, srcAfter, dstAfter) && i <= 2
    ensures
      var e := Apply(d, PairPlan(crc, x)[..i]);
      |e| == |d| && Full(g, crc, e, j, srcAfter, dstAfter)
  {
    hide Full, Apply, EncodeSuper, At, Consistent;
    var v, w := SuperWrite(crc, 1, x), SuperWrite(crc, 0, x);
    SuperWriteKeeps(g, crc, d, 1, EncodeSuper(crc, x), j);
    SuperWriteKeeps(g, crc, ApplyOp(d, v), 0, EncodeSuper(crc, x), j);
    TwoStates(d, v, w, i);
  }

  lemma AnnounceStates(g: Geometry, crc: Checksum, d: Disk, j: Job, i: nat)
    requires g.Valid(|d|) && JobShape(g, j) && Full(g, crc, d, j, false, false) && i <= 2
    ensures
      var e := Apply(d, PairPlan(crc, Announcement(g, j))[..i]);
      && |e| == |d| && Full(g, crc, e, j, false, false)
      && (Sane(g, j) && QuietCopies(crc, d, Clear(g, j)) ==>
            Recoverable(g, crc, e, j) && (i == 2 ==> BothAnnounce(g, crc, e, j)))
  {
    hide Full, Apply, EncodeSuper, Recoverable, SuperAt, JobShape, Sane;
    PairFull(g, crc, d, j, Announcement(g, j), false, false, i);
    if Sane(g, j) && QuietCopies(crc, d, Clear(g, j)) {
      var v, w := SuperWrite(crc, 1, Announcement(g, j)), SuperWrite(crc, 0, Announcement(g, j));
      QuietIsRecoverable(g, crc, d, j);
      AnnounceKeeps(g, crc, d, j, 1);
      AnnounceKeeps(g, crc, ApplyOp(d, v), j, 0);
      TwoStates(d, v, w, i);
    }
  }

  lemma UpdateStates(g: Geometry, crc: Checksum, d: Disk, j: Job, i: nat)
    requires g.Valid(|d|) && JobShape(g, j) && Full(g, crc, d, j, false, false) && i <= 2
    ensures
      var e := Apply(d, ParentPlan(g, crc, d, j)[..i]);
      && |e| == |d| && Full(g, crc, e, j, i == 2, i > 0)
      && (Recoverable(g, crc, d, j) && BothAnnounce(g, crc, d, j) ==> Recoverable(g, crc, e, j))
  {
    hide Full, Apply, PublishOp, SuperAt, Sane, Recoverable, BothAnnounce, CopiesOk;
    var first := PublishOp(g, crc, d, j.dst1.inode);
    var d1 := ApplyOp(d, first);
    var second := PublishOp(g, crc, d1, j.src1.inode);
    PublishDestination(g, crc, d, j);
    PublishSource(g, crc, d1, j);
    TwoStates(d, first, second, i);
    if Recoverable(g, crc, d, j) && BothAnnounce(g, crc, d, j) {
      RecoverableJob(g, crc, d, j);
      UpdatedRecoverable(g, crc, d, if i == 0 then d else if i == 1 then d1 else ApplyOp(d1, second), j, i == 2, i > 0);
    }
  }

  lemma UpdatedRecoverable(g: Geometry, crc: Checksum, d: Disk, e: Disk, j: Job, srcAfter: bool, dstAfter: bool)
    requires g.Valid(|d|) && |e| == |d| && JobShape(g, j) && Sane(g, j) && (srcAfter ==> dstAfter)
    requires BothAnnounce(g, crc, d, j) && CopiesOk(g, crc, d, j) && Full(g, crc, e, j, srcAfter, dstAfter)
    requires SuperAt(crc, e, 0) == SuperAt(crc, d, 0) && SuperAt(crc, e, 1) == SuperAt(crc, d, 1)
    ensures Recoverable(g, crc, e, j)
  {
    hide Full, SuperAt, Sane, JobShape, Consistent;
    FullIsAt(g, crc, e, j, srcAfter, dstAfter);
  }

  lemma WithdrawnStates(g: Geometry, crc: Checksum, d: Disk, j: Job, i: nat)
    requires g.Valid(|d|) && JobShape(g, j) && Full(g, crc, d, j, true, true) && i <= 2
    ensures
      var e := Apply(d, PairPlan(crc, Clear(g, j))[..i]);
      && |e| == |d| && Full(g, crc, e, j, true, true)
      && (Recoverable(g, crc, d, j) ==> Recoverable(g, crc, e, j) && (i == 2 ==> !Announced(g, crc, e, j)))
  {
    hide Full, Apply, EncodeSuper, Recoverable, At, Announced, PairPlan;
    PairFull(g, crc, d, j, Clear(g, j), true, true, i);
    if Recoverable(g, crc, d, j) {
      FullIsAt(g, crc, d, j, true, true);
      AtExclusive(g, crc, d, j);
      WithdrawStates(g, crc, d, j, i);
    }
  }

  /** Each write of a move leads to a state with all versions stored, recoverable if recovery can read its record. */
  lemma MoveStates(g: Geometry, crc: Checksum, d: Disk, j: Job, i: nat)
    requires g.Valid(|d|) && JobShape(g, j) && Full(g, crc, d, j, false, false) && i <= 6
    ensures
      var e := Apply(d, MovePlan(g, crc, d, j)[..i]);
      && |e| == |d| && Full(g, crc, e, j, i >= 4, i >= 3)
      && (Sane(g, j) && QuietCopies(crc, d, Clear(g, j)) ==>
            Recoverable(g, crc, e, j) && (i == 6 ==> !Announced(g, crc, e, j)))
  {
    hide Full, Apply, ParentPlan, Recoverable, JobShape, Sane, QuietCopies, PairPlan, Announced, BothAnnounce;
    var a, c := PairPlan(crc, Announcement(g, j)), PairPlan(crc, Clear(g, j));
    var d1 := Apply(d, a);
    var b := ParentPlan(g, crc, d1, j);
    var d2 := Apply(d1, b);
    assert a[..2] == a && b[..2] == b && c[..2] == c;
    AnnounceStates(g, crc, d, j, 2);
    UpdateStates(g, crc, d1, j, 2);
    ApplyConcat(d, a, b);
    PlanSplit(d, a + b, c, i);
    if i <= 4 {
      PlanSplit(d, a, b, i);
    }
    if i <= 2 {
      AnnounceStates(g, crc, d, j, i);
    } else if i <= 4 {
      UpdateStates(g, crc, d1, j, i - 2);
    } else {
      WithdrawnStates(g, crc, d2, j, i - 4);
    }
  }

  // ----- What the publications need -----

  predicate EmptyAtZero(i: Inode) {
    i.extentBlocks == 0 ==> i.extentStart == 0
  }

  lemma DestinationMayPublish(g: Geometry, crc: Checksum, d: Disk, j: Job)
    requires g.Valid(|d|) && JobShape(g, j) && Full(g, crc, d, j, false, false)
    ensures MayPublish(g, crc, d, j.dst1.inode.(revision := j.dst0.inode.revision))
  {
    hide InodeAt, Flat, Decoded, AllAllocated;
  }

  lemma SourceMayPublish(g: Geometry, crc: Checksum, d: Disk, j: Job)
    requires g.Valid(|d|) && JobShape(g, j) && Full(g, crc, d, j, false, true) && EmptyAtZero(j.src1.inode)
    ensures MayPublish(g, crc, d, j.src1.inode.(revision := j.src0.inode.revision))
  {
    hide InodeAt, Flat, Decoded, AllAllocated;
  }

  /** With everything prepared, both publications may go ahead in turn. */
  lemma PublishFacts(g: Geometry, crc: Checksum, d: Disk, j: Job)
    requires g.Valid(|d|) && JobShape(g, j)
    ensures Full(g, crc, d, j, false, false) && EmptyAtZero(j.src1.inode) ==>
      var e := ApplyOp(d, PublishOp(g, crc, d, j.dst1.inode));
      && MayPublish(g, crc, d, j.dst1.inode.(revision := j.dst0.inode.revision))
      && MayPublish(g, crc, e, j.src1.inode.(revision := j.src0.inode.revision))
  {
    hide DisjointExtents, PublishOp, MayPublish, Full;
    if Full(g, crc, d, j, false, false) && EmptyAtZero(j.src1.inode) {
      DestinationMayPublish(g, crc, d, j);
      PublishDestination(g, crc, d, j);
      SourceMayPublish(g, crc, ApplyOp(d, PublishOp(g, crc, d, j.dst1.inode)), j);
    }
  }

  lemma AnnouncedFull(g: Geometry, crc: Checksum, d: Disk, j: Job)
    requires g.Valid(|d|)
    ensures Full(g, crc, d, j, false, false) ==>
      Full(g, crc, Apply(d, PairPlan(crc, Announcement(g, j))), j, false, false)
  {
    hide Full, Apply, PairPlan;
    if Full(g, crc, d, j, false, false) {
      var plan := PairPlan(crc, Announcement(g, j));
      assert plan[..2] == plan;
      PairFull(g, crc, d, j, Announcement(g, j), false, false, 2);
    }
  }

  /** After the plan the old extents can be given back. */
  lemma PublishedReleases(g: Geometry, crc: Checksum, d: Disk, j: Job)
    requires g.Valid(|d|) && JobShape(g, j)
    ensures Full(g, crc, d, j, false, false) ==>
      CanRelease(g, Apply(d, MovePlan(g, crc, d, j)), IntentOf(j).source, IntentOf(j).destination, false)
  {
    hide Apply, JobShape, Full, MovePlan, CanRelease;
    if Full(g, crc, d, j, false, false) {
      var plan := MovePlan(g, crc, d, j);
      assert plan[..6] == plan;
      MoveStates(g, crc, d, j, 6);
      FullReleasable(g, crc, Apply(d, plan), j, true, true);
    }
  }

  /** The three pieces of the plan, as far as they got. */
  lemma MoveRan(
    g: Geometry, crc: Checksum, d: Disk, j: Job, a: seq<Op>, b: seq<Op>, c: seq<Op>, aDone: bool, bDone: bool,
    cDone: bool)
    requires g.Valid(|d|) && JobShape(g, j)
    requires Ran(PairPlan(crc, Announcement(g, j)), a, aDone)
    requires aDone ==> Ran(ParentPlan(g, crc, Apply(d, a), j), b, bDone)
    requires !aDone ==> b == [] && !bDone
    requires bDone ==> Ran(PairPlan(crc, Clear(g, j)), c, cDone)
    requires !bDone ==> c == [] && !cDone
    ensures Ran(MovePlan(g, crc, d, j), a + b + c, cDone)
  {
    hide Apply, PublishOp, PairPlan, Steps, JobShape, ParentPlan;
    var x, z := PairPlan(crc, Announcement(g, j)), PairPlan(crc, Clear(g, j));
    var y := ParentPlan(g, crc, Apply(d, x), j);
    assert x + y + z == x + (y + z);
    StepsApply(d, x);
    if !aDone {
      RanPart(x, a, y + z);
      assert a + b + c == a;
    } else if !bDone {
      RanMore(x, a, y, b, false);
      RanPart(x + y, a + b, z);
      assert a + b + c == a + b;
    } else {
      RanMore(x, a, y, b, true);
      RanMore(x + y, a + b, z, c, cDone);
    }
  }

  // ----- Power cuts from the announcement on -----

  lemma PlanAllWrites(g: Geometry, crc: Checksum, d: Disk, j: Job)
    requires g.Valid(|d|) && JobShape(g, j)
    ensures AllWrites(MovePlan(g, crc, d, j))
  {
    hide Apply, EncodeSuper, DisjointExtents;
  }

  /** Once its plan is through, a move may give the old extents back; both parents stay as after. */
  lemma MovedAndFreed(g: Geometry, crc: Checksum, d: Disk, e: Disk, j: Job)
    requires g.Valid(|d|) && JobShape(g, j) && Full(g, crc, d, j, true, true)
    requires OnlyFreed(g, d, e, OldExtents(IntentOf(j)))
    ensures |e| == |d| && Consistent(g, crc, e, j, true)
    ensures Recoverable(g, crc, d, j) && !Announced(g, crc, d, j) ==> Recoverable(g, crc, e, j)
  {
    hide Full, Consistent, OnlyFreed, JobShape, Recoverable, Announced;
    FreedKeeps(g, crc, d, e, j, true);
    if Recoverable(g, crc, d, j) && !Announced(g, crc, d, j) {
      FreedRecoverable(g, crc, d, e, j, true);
    }
  }

  lemma SettledJoinIf(a: seq<Op>, b: seq<Op>)
    requires Settled(a)
    ensures Settled(b) ==> Settled(a + b)
  {
  }

  /** From the announcement on, every cut is recoverable; success leaves the move done. */
  lemma PublishCut(g: Geometry, crc: Checksum, d: Disk, j: Job, q: seq<Op>, rel: seq<Op>, done: bool, e: Disk)
    requires g.Valid(|d|) && JobShape(g, j) && Full(g, crc, d, j, false, false)
    requires Ran(MovePlan(g, crc, d, j), q, rel != [] || done) && (done ==> Settled(rel))
    requires FreeOps(g, Apply(d, q), rel, OldExtents(IntentOf(j)))
    ensures CrashPoint(d, q + rel, e) && Sane(g, j) && QuietCopies(crc, d, Clear(g, j)) ==> Recoverable(g, crc, e, j)
    ensures done ==>
      var end := Apply(d, q + rel);
      && Settled(q + rel) && |end| == |d| && Consistent(g, crc, end, j, true)
  {
    hide Recoverable, CrashPoint, Apply, Announced, MovePlan, FreeOps, Consistent, Full, JobShape, Sane,
         QuietCopies, OldExtents;
    var plan, x := MovePlan(g, crc, d, j), OldExtents(IntentOf(j));
    PlanAllWrites(g, crc, d, j);
    MoveStates(g, crc, d, j, 6);
    assert plan[..6] == plan;
    StepsApply(d, plan);
    StepsSettled(plan);
    ApplyConcat(d, q, rel);
    var d1 := Apply(d, q);
    if rel != [] || done {
      FreeApply(g, d1, rel, x);
      MovedAndFreed(g, crc, d1, Apply(d1, rel), j);
      SettledJoinIf(q, rel);
    }
    if CrashPoint(d, q + rel, e) && Sane(g, j) && QuietCopies(crc, d, Clear(g, j)) {
      if rel == [] {
        assert q + rel == q;
      } else {
        CrashPointSplit(d, q, rel, e);
      }
      if CrashPoint(d, q, e) {
        var i := PlanCrashPoint(d, plan, q, e);
        MoveStates(g, crc, d, j, i);
      } else {
        FreeCut(g, d1, rel, x, e);
        MovedAndFreed(g, crc, d1, e, j);
      }
    }
  }
}
