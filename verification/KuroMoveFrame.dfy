/**
 What a move and its recovery leave alone: every inode but the two parents keeps
 its slot, its blocks and, if it is a directory, its contents, wherever power is cut.
 */
module KuroMoveFrame {
  import opened Bytes
  import opened KuroDisk
  import opened KuroBitmap
  import opened KuroInode
  import opened KuroDirectory
  import opened KuroDirFrame
  import opened KuroVersion
  import opened KuroSuper
  import opened KuroRelease
  import opened KuroPlan
  import opened KuroOwner
  import opened KuroMoveState
  import opened KuroMoveRecover
  import opened KuroMovePrepare
  import opened KuroMovePlan
  import opened KuroMoveJob

  /** i is a live inode of d0 that is neither parent of the move. */
  ghost predicate Other(g: Geometry, crc: Checksum, d0: Disk, j: Job, i: Inode)
    requires g.Valid(|d0|)
  {
    && InodeAt(g, crc, d0, i.id) == Success(i) && Owns(g, d0, i)
    && i.id != j.src0.inode.id && i.id != j.dst0.inode.id
  }

  /** e holds every other inode of d0 as d0 does, and an old destination still owns its blocks. */
  ghost predicate Frame(g: Geometry, crc: Checksum, d0: Disk, e: Disk, j: Job)
    requires g.Valid(|d0|)
  {
    && |e| == |d0| && SameChildren(g, crc, d0, e)
    && (forall id: U64 :: id != j.src0.inode.id && id != j.dst0.inode.id ==>
          SlotAt(g, crc, e, id) == SlotAt(g, crc, d0, id))
    && (forall i: Inode :: Other(g, crc, d0, j, i) ==> Owns(g, e, i))
    && (forall v: Version :: Other(g, crc, d0, j, v.inode) && Carries(g, crc, d0, v) ==> Carries(g, crc, e, v))
    && (InodeAt(g, crc, e, j.dst0.inode.id) == Success(j.dst0.inode) ==> Owns(g, e, j.dst0.inode))
  }

  /** e' has the slots, blocks and versions of e, apart from the inode with that id. */
  ghost predicate Kept(g: Geometry, crc: Checksum, d0: Disk, e: Disk, e': Disk, j: Job)
    requires g.Valid(|d0|) && |e| == |d0|
  {
    && |e'| == |e| && SameChildren(g, crc, e, e')
    && (forall id: U64 :: id != j.src0.inode.id && id != j.dst0.inode.id ==>
          SlotAt(g, crc, e', id) == SlotAt(g, crc, e, id))
    && (forall i: Inode :: Other(g, crc, d0, j, i) && Owns(g, e, i) ==> Owns(g, e', i))
    && (forall v: Version :: Other(g, crc, d0, j, v.inode) && Carries(g, crc, e, v) ==> Carries(g, crc, e', v))
    && (InodeAt(g, crc, e', j.dst0.inode.id) == Success(j.dst0.inode) ==>
          && InodeAt(g, crc, e, j.dst0.inode.id) == Success(j.dst0.inode)
          && (Owns(g, e, j.dst0.inode) ==> Owns(g, e', j.dst0.inode)))
  }

  lemma FrameOn(g: Geometry, crc: Checksum, d0: Disk, e: Disk, e': Disk, j: Job)
    requires g.Valid(|d0|) && Frame(g, crc, d0, e, j) && Kept(g, crc, d0, e, e', j)
    ensures Frame(g, crc, d0, e', j)
  {
    hide InodeAt, SlotAt, SameChildren, Other, Owns, Carries;
    ChildrenTrans(g, crc, d0, e, e');
  }

  lemma FrameSelf(g: Geometry, crc: Checksum, d: Disk, j: Job)
    requires g.Valid(|d|) && Owns(g, d, j.dst0.inode)
    ensures Frame(g, crc, d, d, j)
  {
    hide InodeAt, SlotAt, Owns, Carries;
  }

  // ----- What keeps the frame -----

  lemma SuperKeeps(g: Geometry, crc: Checksum, d0: Disk, e: Disk, j: Job, block: nat, sector: Sector)
    requires g.Valid(|d0|) && |e| == |d0| && block < 2
    ensures Kept(g, crc, d0, e, ApplyOp(e, Op.Write(block, sector)), j)
  {
    hide InodeAt, SlotAt, SameChildren, Other, Owns, Carries, TableSame;
    var w := Op.Write(block, sector);
    var e' := ApplyOp(e, w);
    SuperWriteTable(g, e, block, sector);
    TableSameChildren(g, crc, e, e');
    TableSameInode(g, crc, e, e', j.dst0.inode.id);
    forall id: U64 ensures SlotAt(g, crc, e', id) == SlotAt(g, crc, e, id) {
      TableSameSlot(g, crc, e, e', id);
    }
    forall i: Inode | Owns(g, e, i) ensures Owns(g, e', i) {
      LowWriteOwns(g, e, w, i);
    }
    forall v: Version | Carries(g, crc, e, v) ensures Carries(g, crc, e', v) {
      SuperWriteCarries(g, crc, e, block, sector, v);
    }
  }

  lemma GrewKeeps(g: Geometry, crc: Checksum, d0: Disk, e: Disk, e': Disk, j: Job)
    requires g.Valid(|d0|) && |e| == |d0| && OnlyGrew(g, e, e')
    ensures Kept(g, crc, d0, e, e', j)
  {
    hide InodeAt, SlotAt, SameChildren, Other, Owns, Carries, TableSame, OnlyGrew;
    GrewLength(g, e, e');
    GrewTable(g, e, e');
    TableSameChildren(g, crc, e, e');
    TableSameInode(g, crc, e, e', j.dst0.inode.id);
    forall id: U64 ensures SlotAt(g, crc, e', id) == SlotAt(g, crc, e, id) {
      TableSameSlot(g, crc, e, e', id);
    }
    forall i: Inode | Owns(g, e, i) ensures Owns(g, e', i) {
      GrewOwns(g, e, e', i);
    }
    forall v: Version | Carries(g, crc, e, v) ensures Carries(g, crc, e', v) {
      GrewCarries(g, crc, e, e', v);
    }
  }

  /** Publishing the next version of a parent. */
  lemma PublishKeepsFrame(g: Geometry, crc: Checksum, d0: Disk, e: Disk, j: Job, was: Inode, i: Inode)
    requires g.Valid(|d0|) && |e| == |d0| && InodeAt(g, crc, e, i.id) == Success(was) && Successor(was, i)
    requires (i.id == j.src0.inode.id && i.id != j.dst0.inode.id) || i == j.dst1.inode
    requires Successor(j.dst0.inode, j.dst1.inode)
    ensures Kept(g, crc, d0, e, ApplyOp(e, PublishOp(g, crc, e, i)), j)
  {
    hide InodeAt, SlotAt, Other, Owns, Carries, PublishOp;
    var w := PublishOp(g, crc, e, i);
    var e' := ApplyOp(e, w);
    StoredRange(g, crc, e, i.id);
    PublishKeeps(g, crc, e, was, i, j);
    assert SameChildren(g, crc, e, e);
    PublishKeepsChildren(g, crc, e, e, was, i);
    hide SameChildren;
    forall id: U64 | id != i.id ensures SlotAt(g, crc, e', id) == SlotAt(g, crc, e, id) {
      PublishedSlot(g, crc, e, i, id);
    }
    PublishIsLow(g, crc, e, i);
    forall k: Inode | Owns(g, e, k) ensures Owns(g, e', k) {
      LowWriteOwns(g, e, w, k);
    }
  }

  lemma StoredRange(g: Geometry, crc: Checksum, d: Disk, id: U64)
    requires g.Valid(|d|) && InodeAt(g, crc, d, id).Success?
    ensures 0 < id <= g.inodeCount && Acceptable(InodeAt(g, crc, d, id).value, id)
  {
  }

  /** The two extents belong to no other inode, nor to an old destination that e shows. */
  ghost predicate SparesAll(g: Geometry, crc: Checksum, d0: Disk, e: Disk, j: Job, x: Two)
    requires g.Valid(|d0|) && |e| == |d0|
  {
    && (forall i: Inode :: Other(g, crc, d0, j, i) ==> i.extentBlocks == 0 || x.Spares(i.extentStart, i.extentBlocks))
    && (InodeAt(g, crc, e, j.dst0.inode.id) == Success(j.dst0.inode) ==>
          j.dst0.inode.extentBlocks == 0 || x.Spares(j.dst0.inode.extentStart, j.dst0.inode.extentBlocks))
  }

  lemma FreedOwns(g: Geometry, d: Disk, e: Disk, i: Inode, x: Two)
    requires g.Valid(|d|) && Owns(g, d, i) && OnlyFreed(g, d, e, x)
    requires i.extentBlocks == 0 || x.Spares(i.extentStart, i.extentBlocks)
    ensures Owns(g, e, i)
  {
    hide SectorBit;
    if i.extentBlocks != 0 {
      forall y: nat | i.extentStart <= y < i.extentStart + i.extentBlocks ensures Allocated(g, e, y) {
        assert Allocated(g, d, y);
        BitmapIndex(g, y);
      }
    }
  }

  lemma FreedKeepsFrame(g: Geometry, crc: Checksum, d0: Disk, e: Disk, e': Disk, j: Job, x: Two)
    requires g.Valid(|d0|) && |e| == |d0| && OnlyFreed(g, e, e', x) && SparesAll(g, crc, d0, e, j, x)
    ensures Kept(g, crc, d0, e, e', j)
  {
    hide InodeAt, SlotAt, SameChildren, Other, Owns, Carries, TableSame;
    assert TableSame(g, e, e') by { FreedTable(g, e, e', x); }
    assert |e'| == |e|;
    hide OnlyFreed;
    TableSameChildren(g, crc, e, e');
    TableSameInode(g, crc, e, e', j.dst0.inode.id);
    forall id: U64 ensures SlotAt(g, crc, e', id) == SlotAt(g, crc, e, id) {
      TableSameSlot(g, crc, e, e', id);
    }
    forall i: Inode | Other(g, crc, d0, j, i) && Owns(g, e, i) ensures Owns(g, e', i) {
      FreedOwns(g, e, e', i, x);
    }
    forall v: Version | Other(g, crc, d0, j, v.inode) && Carries(g, crc, e, v) ensures Carries(g, crc, e', v) {
      FreedCarries(g, crc, e, e', v, x);
    }
    if InodeAt(g, crc, e', j.dst0.inode.id) == Success(j.dst0.inode) && Owns(g, e, j.dst0.inode) {
      FreedOwns(g, e, e', j.dst0.inode, x);
    }
  }

  lemma FreedTable(g: Geometry, e: Disk, e': Disk, x: Two)
    requires g.Valid(|e|) && OnlyFreed(g, e, e', x)
    ensures TableSame(g, e, e')
  {
    hide Allocated;
  }

  // ----- The writes of a move -----

  lemma PairFrame(g: Geometry, crc: Checksum, d0: Disk, e: Disk, j: Job, x: Super, i: nat)
    requires g.Valid(|d0|) && Frame(g, crc, d0, e, j) && i <= 2
    ensures Frame(g, crc, d0, Apply(e, PairPlan(crc, x)[..i]), j)
  {
    hide Frame, Kept, Apply, EncodeSuper;
    FrameLength(g, crc, d0, e, j);
    var v, w := SuperWrite(crc, 1, x), SuperWrite(crc, 0, x);
    var e1 := ApplyOp(e, v);
    SuperKeeps(g, crc, d0, e, j, 1, EncodeSuper(crc, x));
    FrameOn(g, crc, d0, e, e1, j);
    SuperKeeps(g, crc, d0, e1, j, 0, EncodeSuper(crc, x));
    FrameOn(g, crc, d0, e1, ApplyOp(e1, w), j);
    TwoStates(e, v, w, i);
  }

  lemma FrameLength(g: Geometry, crc: Checksum, d0: Disk, e: Disk, j: Job)
    requires g.Valid(|d0|) && Frame(g, crc, d0, e, j)
    ensures |e| == |d0| && SameChildren(g, crc, d0, e)
  {
  }

  lemma DestinationFrame(g: Geometry, crc: Checksum, d0: Disk, e: Disk, j: Job)
    requires g.Valid(|d0|) && Frame(g, crc, d0, e, j) && |e| == |d0| && JobShape(g, j)
    requires At(g, crc, e, j, false, false)
    ensures Frame(g, crc, d0, ApplyOp(e, PublishOp(g, crc, e, j.dst1.inode)), j)
  {
    hide Frame, Kept, PublishOp, InodeAt, DisjointExtents;
    PublishKeepsFrame(g, crc, d0, e, j, j.dst0.inode, j.dst1.inode);
    FrameOn(g, crc, d0, e, ApplyOp(e, PublishOp(g, crc, e, j.dst1.inode)), j);
  }

  lemma SourceFrame(g: Geometry, crc: Checksum, d0: Disk, e: Disk, j: Job)
    requires g.Valid(|d0|) && Frame(g, crc, d0, e, j) && |e| == |d0| && JobShape(g, j)
    requires At(g, crc, e, j, false, true)
    ensures Frame(g, crc, d0, ApplyOp(e, PublishOp(g, crc, e, j.src1.inode)), j)
  {
    hide Frame, Kept, PublishOp, InodeAt, DisjointExtents;
    PublishKeepsFrame(g, crc, d0, e, j, j.src0.inode, j.src1.inode);
    FrameOn(g, crc, d0, e, ApplyOp(e, PublishOp(g, crc, e, j.src1.inode)), j);
  }

  lemma ParentFrame(g: Geometry, crc: Checksum, d0: Disk, e: Disk, j: Job, i: nat)
    requires g.Valid(|d0|) && Frame(g, crc, d0, e, j) && |e| == |d0| && JobShape(g, j) && i <= 2
    requires Full(g, crc, e, j, false, false)
    ensures Frame(g, crc, d0, Apply(e, ParentPlan(g, crc, e, j)[..i]), j)
  {
    hide Frame, Apply, PublishOp, Full, DisjointExtents, At, SuperAt;
    var plan := ParentPlan(g, crc, e, j);
    var e1 := ApplyOp(e, plan[0]);
    FullIsAt(g, crc, e, j, false, false);
    DestinationFrame(g, crc, d0, e, j);
    PublishDestination(g, crc, e, j);
    FullIsAt(g, crc, e1, j, false, true);
    SourceFrame(g, crc, d0, e1, j);
    TwoStates(e, plan[0], plan[1], i);
  }

  lemma MoveFrame(g: Geometry, crc: Checksum, d0: Disk, e: Disk, j: Job, i: nat)
    requires g.Valid(|d0|) && Frame(g, crc, d0, e, j) && |e| == |d0| && JobShape(g, j) && i <= 6
    requires Full(g, crc, e, j, false, false)
    ensures Frame(g, crc, d0, Apply(e, MovePlan(g, crc, e, j)[..i]), j)
  {
    hide Frame, Full, Apply, ParentPlan, PairPlan, JobShape;
    var a, c := PairPlan(crc, Announcement(g, j)), PairPlan(crc, Clear(g, j));
    var e1 := Apply(e, a);
    var b := ParentPlan(g, crc, e1, j);
    var e2 := Apply(e1, b);
    assert a[..2] == a && b[..2] == b;
    PairFrame(g, crc, d0, e, j, Announcement(g, j), 2);
    AnnounceStates(g, crc, e, j, 2);
    ParentFrame(g, crc, d0, e1, j, 2);
    ApplyConcat(e, a, b);
    PlanSplit(e, a + b, c, i);
    if i <= 2 {
      PlanSplit(e, a, b, i);
      PairFrame(g, crc, d0, e, j, Announcement(g, j), i);
    } else if i <= 4 {
      PlanSplit(e, a, b, i);
      ParentFrame(g, crc, d0, e1, j, i - 2);
    } else {
      PairFrame(g, crc, d0, e2, j, Clear(g, j), i - 4);
    }
  }

  // ----- Whose blocks are given back -----

  /** No other inode shares a block with a parent, old or new. */
  ghost predicate Secluded(g: Geometry, crc: Checksum, d0: Disk, j: Job)
    requires g.Valid(|d0|)
  {
    forall i: Inode :: Other(g, crc, d0, j, i) ==>
      && DisjointExtents(i, j.src0.inode) && DisjointExtents(i, j.dst0.inode)
      && DisjointExtents(i, j.src1.inode) && DisjointExtents(i, j.dst1.inode)
  }

  lemma OldSpared(g: Geometry, crc: Checksum, d0: Disk, e: Disk, j: Job)
    requires g.Valid(|d0|) && |e| == |d0| && Secluded(g, crc, d0, j) && JobShape(g, j)
    requires At(g, crc, e, j, true, true)
    ensures SparesAll(g, crc, d0, e, j, OldExtents(IntentOf(j)))
  {
    hide InodeAt, Other;
  }

  lemma NewSpared(g: Geometry, crc: Checksum, d0: Disk, e: Disk, j: Job)
    requires g.Valid(|d0|) && |e| == |d0| && Secluded(g, crc, d0, j) && JobShape(g, j)
    ensures SparesAll(g, crc, d0, e, j, NewExtents(IntentOf(j)))
  {
    hide InodeAt, Other;
  }

  lemma FreeFrame(g: Geometry, crc: Checksum, d0: Disk, e: Disk, e': Disk, j: Job, after: bool)
    requires g.Valid(|d0|) && Frame(g, crc, d0, e, j) && |e| == |d0| && Secluded(g, crc, d0, j) && JobShape(g, j)
    requires Full(g, crc, e, j, after, after)
    requires OnlyFreed(g, e, e', if after then OldExtents(IntentOf(j)) else NewExtents(IntentOf(j)))
    ensures Frame(g, crc, d0, e', j)
  {
    hide Frame, Kept, Full, JobShape, OnlyFreed, SparesAll, Secluded, At, OldExtents, NewExtents;
    FullIsAt(g, crc, e, j, after, after);
    if after {
      OldSpared(g, crc, d0, e, j);
    } else {
      NewSpared(g, crc, d0, e, j);
    }
    FreedKeepsFrame(g, crc, d0, e, e', j, if after then OldExtents(IntentOf(j)) else NewExtents(IntentOf(j)));
    FrameOn(g, crc, d0, e, e', j);
  }

  /** No other inode shares a block with either parent as found. */
  ghost predicate Lone(g: Geometry, crc: Checksum, d0: Disk, j: Job)
    requires g.Valid(|d0|)
  {
    forall i: Inode :: Other(g, crc, d0, j, i) ==>
      DisjointExtents(i, j.src0.inode) && DisjointExtents(i, j.dst0.inode)
  }

  lemma SecludedByFresh(g: Geometry, crc: Checksum, d0: Disk, e: Disk, j: Job)
    requires g.Valid(|d0|) && Lone(g, crc, d0, j) && Frame(g, crc, d0, e, j)
    requires FreshExtent(g, e, j.src1.inode) && FreshExtent(g, e, j.dst1.inode)
    ensures Secluded(g, crc, d0, j)
  {
    hide SlotAt, InodeAt, SameChildren, Carries, Owns, FreeRun, DisjointExtents, Other;
    forall i: Inode | Other(g, crc, d0, j, i)
      ensures DisjointExtents(i, j.src1.inode) && DisjointExtents(i, j.dst1.inode)
    {
      FreshApart(g, e, i, j.src1.inode);
      FreshApart(g, e, i, j.dst1.inode);
    }
  }

  // ----- A move, wherever it is cut -----

  lemma FeatureFrame(g: Geometry, crc: Checksum, d0: Disk, j: Job, f: seq<Op>, e: Disk)
    requires g.Valid(|d0|) && Frame(g, crc, d0, d0, j) && f <= Steps(PairPlan(crc, Clear(g, j)))
    ensures CrashPoint(d0, f, e) ==> Frame(g, crc, d0, e, j)
    ensures f == Steps(PairPlan(crc, Clear(g, j))) ==> Frame(g, crc, d0, Apply(d0, f), j)
  {
    hide Frame, Apply, CrashPoint, EncodeSuper, Steps;
    var plan := PairPlan(crc, Clear(g, j));
    if CrashPoint(d0, f, e) {
      var i := PlanCrashPoint(d0, plan, f, e);
      PairFrame(g, crc, d0, d0, j, Clear(g, j), i);
    }
    assert plan[..2] == plan;
    PairFrame(g, crc, d0, d0, j, Clear(g, j), 2);
    StepsApply(d0, plan);
  }

  /** From the announcement on. */
  lemma PublishFrame(
    g: Geometry, crc: Checksum, d0: Disk, d: Disk, j: Job, q: seq<Op>, rel: seq<Op>, done: bool, e: Disk)
    requires g.Valid(|d0|) && Frame(g, crc, d0, d, j) && |d| == |d0| && JobShape(g, j) && Secluded(g, crc, d0, j)
    requires Full(g, crc, d, j, false, false) && CrashPoint(d, q + rel, e)
    requires Ran(MovePlan(g, crc, d, j), q, rel != [] || done)
    requires FreeOps(g, Apply(d, q), rel, OldExtents(IntentOf(j)))
    ensures Frame(g, crc, d0, e, j)
  {
    hide Frame, Apply, CrashPoint, MovePlan, FreeOps, Full, JobShape, Secluded, OldExtents, Steps, OnlyFreed;
    var plan, x := MovePlan(g, crc, d, j), OldExtents(IntentOf(j));
    PlanAllWrites(g, crc, d, j);
    MoveStates(g, crc, d, j, 6);
    MoveFrame(g, crc, d0, d, j, 6);
    assert plan[..6] == plan;
    StepsApply(d, plan);
    StepsSettled(plan);
    if rel == [] {
      assert q + rel == q;
    } else {
      CrashPointSplit(d, q, rel, e);
    }
    if CrashPoint(d, q, e) {
      var i := PlanCrashPoint(d, plan, q, e);
      MoveFrame(g, crc, d0, d, j, i);
    } else {
      FreeCut(g, Apply(d, q), rel, x, e);
      FreeFrame(g, crc, d0, Apply(d, q), e, j, true);
    }
  }

  /** Wherever power is cut during a move, every other inode is as it was. */
  lemma AttemptFrame(g: Geometry, crc: Checksum, d0: Disk, start: Super, j: Job, ops: seq<Op>, done: bool, e: Disk)
    requires g.Valid(|d0|) && JobBegun(g, crc, d0, j) && AttemptRan(g, crc, d0, start, j, ops, done)
    requires j.generation != 0 && j.features <= 3 && Lone(g, crc, d0, j) && CrashPoint(d0, ops, e)
    ensures Frame(g, crc, d0, e, j) && Secluded(g, crc, d0, j)
  {
    hide JobBegun, JobReady, CrashPoint, Apply, Frame, Full, JobShape, MovePlan, FreeOps, GrowOps, Steps, PairPlan,
         OnlyGrew, Lone, Secluded, FreshExtent, Kept, Untouched, QuietCopies, OldExtents;
    var f, p, q, rel :| ops == f + (p + (q + rel)) && Stretches(g, crc, d0, start, j, f, p, q, rel, done);
    var d1 := Apply(d0, f);
    var d2 := Apply(d1, p);
    assert Frame(g, crc, d0, d0, j) by { BegunFrame(g, crc, d0, j); }
    BegunFeature(g, crc, d0, start, j, f);
    ReadyFacts(g, crc, d1, d2, j);
    ApplyNothing(d0);
    if f != [] {
      FeatureFrame(g, crc, d0, j, f, e);
    }
    SecludedByFresh(g, crc, d0, d1, j);
    GrowApply(g, d1, p);
    GrewKeeps(g, crc, d0, d1, d2, j);
    FrameOn(g, crc, d0, d1, d2, j);
    CrashPointSplit(d0, f, p + (q + rel), e);
    if CrashPoint(d0, f, e) {
      if f == [] {
        NoCut(d0, e);
      }
    } else {
      CrashPointSplit(d1, p, q + rel, e);
      if CrashPoint(d1, p, e) {
        GrowCrash(g, d1, p, e);
        GrewKeeps(g, crc, d0, d1, e, j);
        FrameOn(g, crc, d0, d1, e, j);
      } else {
        PublishFrame(g, crc, d0, d2, j, q, rel, done, e);
      }
    }
  }

  lemma NoCut(d: Disk, e: Disk)
    requires CrashPoint(d, [], e)
    ensures e == d
  {
    var P := (x: Disk) => x == d;
    CrashPointInvariant(d, [], P, e);
  }

  lemma BegunFrame(g: Geometry, crc: Checksum, d: Disk, j: Job)
    requires g.Valid(|d|) && JobBegun(g, crc, d, j)
    ensures Frame(g, crc, d, d, j)
  {
    hide Frame, InodeAt, Carries, AllAllocated;
    FrameSelf(g, crc, d, j);
  }

  // ----- A recovery, wherever it is cut -----

  lemma RecoverPlanFrame(g: Geometry, crc: Checksum, d0: Disk, d: Disk, j: Job, i: nat)
    requires g.Valid(|d0|) && Frame(g, crc, d0, d, j) && |d| == |d0|
    requires Recoverable(g, crc, d, j) && Announced(g, crc, d, j) && IntentValid(g, IntentOf(j))
    requires i <= |RecoverPlan(g, crc, d, Announcement(g, j), IntentOf(j))|
    ensures Frame(g, crc, d0, Apply(d, RecoverPlan(g, crc, d, Announcement(g, j), IntentOf(j))[..i]), j)
  {
    hide Frame, At, Full, Recoverable, RecoverPlan, Apply, PublishOp, VerdictAt, Announced, Announces, PairPlan,
         IntentValid, JobShape;
    RecoverPlanIs(g, crc, d, j);
    RecoverableJob(g, crc, d, j);
    var plan, pair := RecoverPlan(g, crc, d, Announcement(g, j), IntentOf(j)), PairPlan(crc, Clear(g, j));
    if At(g, crc, d, j, false, true) {
      var w := PublishOp(g, crc, d, j.src1.inode);
      if i == 0 {
        ApplyNothing(d);
        assert plan[..i] == [];
      } else {
        SourceFrame(g, crc, d0, d, j);
        assert plan[0] == w && plan[1..] == pair;
        ApplyHead(d, plan, i);
        PairFrame(g, crc, d0, ApplyOp(d, w), j, Clear(g, j), i - 1);
      }
    } else {
      PairFrame(g, crc, d0, d, j, Clear(g, j), i);
    }
  }

  lemma RecoverFrame(g: Geometry, crc: Checksum, d0: Disk, d: Disk, j: Job, ops: seq<Op>, done: bool, e: Disk)
    requires g.Valid(|d0|) && Frame(g, crc, d0, d, j) && |d| == |d0| && Secluded(g, crc, d0, j)
    requires Recoverable(g, crc, d, j) && Announced(g, crc, d, j) && IntentValid(g, IntentOf(j))
    requires RecoverRan(g, crc, d, Announcement(g, j), IntentOf(j), ops, done) && CrashPoint(d, ops, e)
    ensures Frame(g, crc, d0, e, j)
  {
    hide Frame, Recoverable, CrashPoint, Apply, Announced, RecoverPlan, VerdictAt, FreeOps, IntentValid, Full,
         Secluded, JobShape, OnlyFreed, OldExtents, NewExtents;
    var m, plan := IntentOf(j), RecoverPlan(g, crc, d, Announcement(g, j), IntentOf(j));
    var after := !VerdictAt(g, crc, d, m).Undo?;
    var r, rel :|
      && ops == r + rel && Ran(plan, r, rel != [] || done) && (done ==> Settled(rel))
      && Freed(g, Apply(d, r), rel, m, VerdictAt(g, crc, d, m).Undo?);
    RecoverableJob(g, crc, d, j);
    RecoverStates(g, crc, d, j, |plan|);
    RecoverPlanFrame(g, crc, d0, d, j, |plan|);
    assert plan[..|plan|] == plan;
    StepsApply(d, plan);
    StepsSettled(plan);
    if rel == [] {
      assert ops == r;
    } else {
      CrashPointSplit(d, r, rel, e);
    }
    if CrashPoint(d, r, e) {
      var i := PlanCrashPoint(d, plan, r, e);
      RecoverPlanFrame(g, crc, d0, d, j, i);
    } else {
      FreeCut(g, Apply(d, r), rel, if after then OldExtents(m) else NewExtents(m), e);
      FreeFrame(g, crc, d0, Apply(d, r), e, j, after);
    }
  }
}
