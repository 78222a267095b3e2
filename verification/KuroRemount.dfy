/**
 Mounting again while writes of a failed move or of a failed recovery have not
 been flushed: when that puts the moved entry at risk, and that it never does
 otherwise, over any number of mounts and power cuts.
 */
module KuroRemount {
  import opened Bytes
  import opened KuroDisk
  import opened KuroBitmap
  import opened KuroExtent
  import opened KuroInode
  import opened KuroDirectory
  import opened KuroDirFrame
  import opened KuroAppendOp
  import opened KuroVersion
  import opened KuroSuper
  import opened KuroRelease
  import opened KuroPlan
  import opened KuroMoveState
  import opened KuroMoveRecover
  import opened KuroMovePrepare
  import opened KuroMount
  import opened KuroMovePlan
  import opened KuroMove
  import opened KuroOwner
  import opened KuroTree
  import opened KuroCheck

  // ----- What can survive, seen from what the session reads -----

  /** e can be settled, its children look as they do now, and it announces a move that is half done now. */
  ghost predicate Follows(g: Geometry, crc: Checksum, now: Disk, e: Disk, j: Job)
    requires g.Valid(|now|)
  {
    && |e| == |now| && Recoverable(g, crc, e, j) && SameChildren(g, crc, now, e)
    && (At(g, crc, now, j, false, true) ==> Announces(g, crc, e, 0, j))
  }

  /** So does every image that can survive a power cut. */
  ghost predicate AllFollow(g: Geometry, crc: Checksum, base: Disk, log: seq<Op>, j: Job)
    requires g.Valid(|base|)
  {
    forall e: Disk :: CanCrashTo(base, log, e) ==> Follows(g, crc, Apply(base, log), e, j)
  }

  predicate ApartInTable(g: Geometry, j: Job)
    requires JobShape(g, j)
  {
    InodeBlock(g, j.src0.inode.id) != InodeBlock(g, j.dst0.inode.id)
  }

  /**
   The session reads the destination as after the move and the source as before, a power cut could still
   lose the destination's publication, and the two inodes are in different sectors of the table.
   */
  ghost predicate AtRisk(g: Geometry, crc: Checksum, base: Disk, log: seq<Op>, j: Job)
    requires g.Valid(|base|) && JobShape(g, j)
  {
    && ApartInTable(g, j) && At(g, crc, Apply(base, log), j, false, true)
    && exists e: Disk :: |e| == |base| && CanCrashTo(base, log, e) && At(g, crc, e, j, false, false)
  }

  /** Whatever a mount on top of the log does, a power cut leaves a state that mounting can settle. */
  ghost predicate MountSafe(g: Geometry, crc: Checksum, base: Disk, log: seq<Op>, j: Job)
    requires g.Valid(|base|) && Sane(g, j)
  {
    forall ops, done, e: Disk ::
      MountRan(g, crc, Apply(base, log), j, ops, done) && CanCrashTo(base, log + ops, e) ==> Recoverable(g, crc, e, j)
  }

  lemma FollowsSelf(g: Geometry, crc: Checksum, d: Disk, j: Job)
    requires g.Valid(|d|) && Recoverable(g, crc, d, j)
    ensures Follows(g, crc, d, d, j)
  {
    hide InodeAt, SuperAt, Carries, Sane, DisjointExtents;
    assert SameChildren(g, crc, d, d);
  }

  // ----- The first write of a recovery, over any image that can survive -----

  /** A state that announces a move with both parents in step starts its recovery by clearing the secondary copy. */
  lemma PlanWithdraws(g: Geometry, crc: Checksum, d: Disk, j: Job)
    requires g.Valid(|d|) && Recoverable(g, crc, d, j) && Announced(g, crc, d, j) && IntentValid(g, IntentOf(j))
    requires !At(g, crc, d, j, false, true)
    ensures RecoverPlan(g, crc, d, Announcement(g, j), IntentOf(j)) == PairPlan(crc, Clear(g, j))
  {
    hide At, Full, PairPlan, VerdictAt, Announced, IntentValid, Recoverable, PublishOp, InodeAt;
    RecoverableJob(g, crc, d, j);
    AnnouncedIsFull(g, crc, d, j);
    FullIsAt(g, crc, d, j, false, false);
    FullIsAt(g, crc, d, j, false, true);
    FullIsAt(g, crc, d, j, true, true);
    FullChild(g, crc, d, j);
    VerdictOf(g, crc, d, j);
  }

  /** With the destination alone as after, recovery starts by publishing the source. */
  lemma PlanFinishes(g: Geometry, crc: Checksum, d: Disk, j: Job)
    requires g.Valid(|d|) && JobShape(g, j) && Sane(g, j) && IntentValid(g, IntentOf(j))
    requires Full(g, crc, d, j, false, true)
    ensures
      var plan := RecoverPlan(g, crc, d, Announcement(g, j), IntentOf(j));
      |plan| == 3 && plan[0] == PublishOp(g, crc, d, j.src1.inode) && AllWrites(plan)
  {
    hide At, Full, VerdictAt, IntentValid, PublishOp, InodeAt, EncodeSuper, Sane, DisjointExtents;
    FullIsAt(g, crc, d, j, false, true);
    FullChild(g, crc, d, j);
    VerdictOf(g, crc, d, j);
    FinishOp(g, crc, d, j);
  }

  /** Clearing the secondary copy while the primary one announces loses nothing. */
  lemma ClearSecondaryKeeps(g: Geometry, crc: Checksum, d: Disk, j: Job)
    requires g.Valid(|d|) && Recoverable(g, crc, d, j) && Full(g, crc, d, j, false, true) && Announces(g, crc, d, 0, j)
    ensures Recoverable(g, crc, ApplyOp(d, SuperWrite(crc, 1, Clear(g, j))), j)
  {
    hide At, Full, Consistent, SuperAt, Sane, JobShape, EncodeSuper;
    ClearIsWritable(g, j);
    SuperWriteCopies(g, crc, d, 1, Clear(g, j));
    SuperWriteKeeps(g, crc, d, 1, EncodeSuper(crc, Clear(g, j)), j);
  }

  /** Clearing the secondary copy keeps every image recoverable. */
  lemma ClearOver(g: Geometry, crc: Checksum, now: Disk, e: Disk, j: Job)
    requires g.Valid(|now|) && Follows(g, crc, now, e, j)
    ensures
      var e' := ApplyOp(e, SuperWrite(crc, 1, Clear(g, j)));
      |e'| == |now| && Recoverable(g, crc, e', j) && SameChildren(g, crc, now, e')
  {
    hide At, Full, Consistent, SuperAt, Recoverable, EncodeSuper, SameChildren;
    var e' := ApplyOp(e, SuperWrite(crc, 1, Clear(g, j)));
    SuperWriteTable(g, e, 1, EncodeSuper(crc, Clear(g, j)));
    TableSameChildren(g, crc, e, e');
    ChildrenTrans(g, crc, now, e, e');
    if At(g, crc, e, j, false, true) {
      HalfDone(g, crc, e, j);
      ClearSecondaryKeeps(g, crc, e, j);
    } else {
      WithdrawKeeps(g, crc, e, j, 1);
    }
  }

  lemma HalfDone(g: Geometry, crc: Checksum, d: Disk, j: Job)
    requires g.Valid(|d|) && Recoverable(g, crc, d, j) && At(g, crc, d, j, false, true)
    ensures Full(g, crc, d, j, false, true) && Announces(g, crc, d, 0, j)
  {
    hide InodeAt, Carries, SuperAt, Sane, DisjointExtents;
  }

  /** Publishing the source, as a session with the move half done does, over an image that can survive. */
  lemma SourceOver(g: Geometry, crc: Checksum, now: Disk, e: Disk, j: Job)
    requires g.Valid(|now|) && JobShape(g, j) && Full(g, crc, now, j, false, true)
    requires Follows(g, crc, now, e, j)
    ensures
      var e' := ApplyOp(e, PublishOp(g, crc, now, j.src1.inode));
      && |e'| == |now| && SameChildren(g, crc, now, e') && ChildOk(g, crc, e', j) && BothCopies(crc, e, e')
      && InodeAt(g, crc, e', j.src0.inode.id) == Success(j.src1.inode)
      && InodeAt(g, crc, e', j.dst0.inode.id)
         == (if ApartInTable(g, j) then InodeAt(g, crc, e, j.dst0.inode.id) else Success(j.dst1.inode))
      && (forall v: Version :: Carries(g, crc, e, v) ==> Carries(g, crc, e', v))
      && (Owns(g, e, j.dst0.inode) ==> Owns(g, e', j.dst0.inode))
  {
    hide InodeAt, Carries, PublishOp, Owns, SuperAt, Recoverable, SameChildren, DisjointExtents, Announces;
    var w := PublishOp(g, crc, now, j.src1.inode);
    var e' := ApplyOp(e, w);
    PublishKeepsChildren(g, crc, now, e, j.src0.inode, j.src1.inode);
    ChildrenTrans(g, crc, now, e, e');
    forall v: Version | Carries(g, crc, e, v) ensures Carries(g, crc, e', v) {
      TableWriteCarries(g, crc, now, e, j.src1.inode, v);
    }
    if Owns(g, e, j.dst0.inode) {
      PublishIsLow(g, crc, now, j.src1.inode);
      LowWriteOwns(g, e, w, j.dst0.inode);
    }
    SlotOver(g, crc, now, e, j.src1.inode, j.src0.inode.id);
    SlotOver(g, crc, now, e, j.src1.inode, j.dst0.inode.id);
    PublishedTable(g, crc, now, j.src1.inode, j.src0.inode.id);
    PublishedTable(g, crc, now, j.src1.inode, j.dst0.inode.id);
    ChildFollows(g, crc, now, e', j);
    LowCopies(g, crc, now, e, j.src1.inode);
  }

  /** Both superblock copies are the same. */
  predicate BothCopies(crc: Checksum, d: Disk, e: Disk) {
    SuperAt(crc, e, 0) == SuperAt(crc, d, 0) && SuperAt(crc, e, 1) == SuperAt(crc, d, 1)
  }

  lemma LowCopies(g: Geometry, crc: Checksum, now: Disk, e: Disk, i: Inode)
    requires g.Valid(|now|) && |e| == |now| && 0 < i.id <= g.inodeCount
    ensures BothCopies(crc, e, ApplyOp(e, PublishOp(g, crc, now, i)))
  {
    hide DecodeSuper, EncodeInode, Splice;
    InodeBlockInTable(g, i.id);
  }

  lemma ChildFollows(g: Geometry, crc: Checksum, now: Disk, e: Disk, j: Job)
    requires g.Valid(|now|) && |e| == |now| && SameChildren(g, crc, now, e) && ChildOk(g, crc, now, j)
    ensures ChildOk(g, crc, e, j)
  {
    hide InodeAt;
  }

  /** A publication made by the session brings its whole sector from what the session reads, and no other. */
  lemma SlotOver(g: Geometry, crc: Checksum, now: Disk, e: Disk, i: Inode, id: U64)
    requires g.Valid(|now|) && |e| == |now| && 0 < i.id <= g.inodeCount && 0 < id <= g.inodeCount
    ensures
      var w := PublishOp(g, crc, now, i);
      InodeAt(g, crc, ApplyOp(e, w), id)
      == if InodeBlock(g, id) == InodeBlock(g, i.id) then InodeAt(g, crc, ApplyOp(now, w), id)
         else InodeAt(g, crc, e, id)
  {
    hide DecodeInode, EncodeInode, Splice, InodeOffset;
    InodeBlockInTable(g, i.id);
    InodeBlockInTable(g, id);
  }

  /** Unless it loses the destination's publication, the image with the source published has the move done. */
  lemma SourceOverKeeps(g: Geometry, crc: Checksum, now: Disk, e: Disk, j: Job)
    requires g.Valid(|now|) && JobShape(g, j) && Full(g, crc, now, j, false, true) && Follows(g, crc, now, e, j)
    requires !(ApartInTable(g, j) && At(g, crc, e, j, false, false))
    ensures
      var e' := ApplyOp(e, PublishOp(g, crc, now, j.src1.inode));
      |e'| == |now| && Recoverable(g, crc, e', j) && SameChildren(g, crc, now, e')
  {
    hide InodeAt, Carries, PublishOp, Owns, SuperAt, SameChildren, DisjointExtents, ChildOk, ApartInTable, Sane;
    SourceOver(g, crc, now, e, j);
    AnnouncedIsFull(g, crc, e, j);
  }

  /** The first write of the session's recovery, over any image that can survive. */
  lemma FirstWriteOver(g: Geometry, crc: Checksum, now: Disk, e: Disk, j: Job)
    requires g.Valid(|now|) && Recoverable(g, crc, now, j) && Announced(g, crc, now, j) && IntentValid(g, IntentOf(j))
    requires Follows(g, crc, now, e, j) && JobShape(g, j)
    requires !(ApartInTable(g, j) && At(g, crc, now, j, false, true) && At(g, crc, e, j, false, false))
    ensures
      var plan := RecoverPlan(g, crc, now, Announcement(g, j), IntentOf(j));
      && plan != []
      && var e' := ApplyOp(e, plan[0]);
      |e'| == |now| && Recoverable(g, crc, e', j) && SameChildren(g, crc, now, e')
  {
    hide At, Full, Announced, IntentValid, Recoverable, RecoverPlan, PublishOp, SameChildren, ApartInTable, EncodeSuper;
    if At(g, crc, now, j, false, true) {
      RecoverableJob(g, crc, now, j);
      HalfDone(g, crc, now, j);
      PlanFinishes(g, crc, now, j);
      SourceOverKeeps(g, crc, now, e, j);
    } else {
      PlanWithdraws(g, crc, now, j);
      ClearOver(g, crc, now, e, j);
    }
  }

  // ----- The states of a recovery among themselves -----

  lemma PairChildren(g: Geometry, crc: Checksum, d: Disk, x: Super, i: nat)
    requires g.Valid(|d|) && i <= 2
    ensures
      var e := Apply(d, PairPlan(crc, x)[..i]);
      |e| == |d| && SameChildren(g, crc, d, e)
  {
    hide EncodeSuper, Apply, SameChildren;
    var v, w := SuperWrite(crc, 1, x), SuperWrite(crc, 0, x);
    var d1 := ApplyOp(d, v);
    assert SameChildren(g, crc, d, d) by { SelfChildren(g, crc, d); }
    SuperWriteTable(g, d, 1, EncodeSuper(crc, x));
    TableSameChildren(g, crc, d, d1);
    SuperWriteTable(g, d1, 0, EncodeSuper(crc, x));
    TableSameChildren(g, crc, d1, ApplyOp(d1, w));
    ChildrenTrans(g, crc, d, d1, ApplyOp(d1, w));
    TwoStates(d, v, w, i);
  }

  lemma SelfChildren(g: Geometry, crc: Checksum, d: Disk)
    requires g.Valid(|d|)
    ensures SameChildren(g, crc, d, d)
  {
    hide InodeAt;
  }

  /** All states of a recovery have the children of the first, and after its first write both parents are in step. */
  lemma RecoverChildren(g: Geometry, crc: Checksum, d: Disk, j: Job, i: nat)
    requires g.Valid(|d|) && Recoverable(g, crc, d, j) && Announced(g, crc, d, j) && IntentValid(g, IntentOf(j))
    requires i <= |RecoverPlan(g, crc, d, Announcement(g, j), IntentOf(j))|
    ensures
      var e := Apply(d, RecoverPlan(g, crc, d, Announcement(g, j), IntentOf(j))[..i]);
      && |e| == |d| && SameChildren(g, crc, d, e) && (i > 0 ==> !At(g, crc, e, j, false, true))
  {
    hide At, Full, Announced, IntentValid, Recoverable, PublishOp, SameChildren, PairPlan, Apply, Sane,
         DisjointExtents, VerdictAt, InodeAt;
    var plan, pair := RecoverPlan(g, crc, d, Announcement(g, j), IntentOf(j)), PairPlan(crc, Clear(g, j));
    RecoverableJob(g, crc, d, j);
    ApplyNothing(d);
    SelfChildren(g, crc, d);
    if At(g, crc, d, j, false, true) {
      HalfDone(g, crc, d, j);
      PlanFinishes(g, crc, d, j);
      PlanTailIs(g, crc, d, j);
      FinishState(g, crc, d, j);
      var d1 := ApplyOp(d, plan[0]);
      FullIsAt(g, crc, d1, j, true, true);
      AtExclusive(g, crc, d1, j);
      SourceChildren(g, crc, d, j);
      if i > 0 {
        ApplyHead(d, plan, i);
        PairChildren(g, crc, d1, Clear(g, j), i - 1);
        ChildrenTrans(g, crc, d, d1, Apply(d1, pair[..i - 1]));
        WithdrawStates(g, crc, d1, j, i - 1);
      }
    } else {
      PlanWithdraws(g, crc, d, j);
      PairChildren(g, crc, d, Clear(g, j), i);
      WithdrawStates(g, crc, d, j, i);
    }
  }

  lemma SourceChildren(g: Geometry, crc: Checksum, d: Disk, j: Job)
    requires g.Valid(|d|) && JobShape(g, j) && Full(g, crc, d, j, false, true)
    ensures SameChildren(g, crc, d, ApplyOp(d, PublishOp(g, crc, d, j.src1.inode)))
  {
    hide InodeAt, Carries, PublishOp, SameChildren, DisjointExtents;
    SelfChildren(g, crc, d);
    PublishKeepsChildren(g, crc, d, d, j.src0.inode, j.src1.inode);
  }

  lemma PlanTailIs(g: Geometry, crc: Checksum, d: Disk, j: Job)
    requires g.Valid(|d|) && JobShape(g, j) && Sane(g, j) && IntentValid(g, IntentOf(j))
    requires Full(g, crc, d, j, false, true)
    ensures
      var plan := RecoverPlan(g, crc, d, Announcement(g, j), IntentOf(j));
      |plan| == 3 && plan[1..] == PairPlan(crc, Clear(g, j))
  {
    hide At, Full, VerdictAt, IntentValid, PublishOp, InodeAt, PairPlan, Sane, DisjointExtents;
    FullIsAt(g, crc, d, j, false, true);
    FullChild(g, crc, d, j);
    VerdictOf(g, crc, d, j);
  }

  // ----- A mount on top of unflushed writes -----

  /** Two states of the recovery, the later one being what the session reads. */
  lemma StatesFollow(g: Geometry, crc: Checksum, d: Disk, j: Job, m: nat, k: nat)
    requires g.Valid(|d|) && Recoverable(g, crc, d, j) && Announced(g, crc, d, j) && IntentValid(g, IntentOf(j))
    requires 0 < m <= |RecoverPlan(g, crc, d, Announcement(g, j), IntentOf(j))|
    requires k <= |RecoverPlan(g, crc, d, Announcement(g, j), IntentOf(j))|
    ensures
      var plan := RecoverPlan(g, crc, d, Announcement(g, j), IntentOf(j));
      Follows(g, crc, Apply(d, plan[..m]), Apply(d, plan[..k]), j)
  {
    hide At, Full, Announced, IntentValid, Recoverable, SameChildren, Apply, RecoverPlan, Announces, VerdictAt;
    var plan := RecoverPlan(g, crc, d, Announcement(g, j), IntentOf(j));
    RecoverChildren(g, crc, d, j, m);
    RecoverChildren(g, crc, d, j, k);
    RecoverStates(g, crc, d, j, k);
    ChildrenTrans(g, crc, d, Apply(d, plan[..m]), Apply(d, plan[..k]));
  }

  /** What can survive while the plan runs on top of the log. */
  lemma PlanOver(g: Geometry, crc: Checksum, base: Disk, log: seq<Op>, j: Job, r: seq<Op>, e: Disk)
    requires g.Valid(|base|) && JobShape(g, j) && AllFollow(g, crc, base, log, j) && !AtRisk(g, crc, base, log, j)
    requires Announced(g, crc, Apply(base, log), j) && IntentValid(g, IntentOf(j))
    requires r <= Steps(RecoverPlan(g, crc, Apply(base, log), Announcement(g, j), IntentOf(j)))
    requires CanCrashTo(base, log + r, e)
    ensures Follows(g, crc, Apply(base, log + r), e, j)
  {
    hide At, Announced, IntentValid, Recoverable, SameChildren, Apply, RecoverPlan, Announces, CanCrashTo, JobShape,
         Steps, Follows, AtRisk;
    var now := Apply(base, log);
    var plan := RecoverPlan(g, crc, now, Announcement(g, j), IntentOf(j));
    ApplyConcat(base, log, r);
    NowIsCrashState(base, log);
    FollowsIs(g, crc, now, now, j);
    if r == [] {
      assert log + r == log;
    } else if |r| == 1 {
      assert plan != [] && r == [plan[0]] by { FirstOfSteps(plan, r); }
      OneOver(g, crc, base, log, j, e);
    } else {
      RestOver(g, crc, base, log, j, r, e);
    }
  }

  lemma FollowsIs(g: Geometry, crc: Checksum, now: Disk, e: Disk, j: Job)
    requires g.Valid(|now|) && Follows(g, crc, now, e, j)
    ensures |e| == |now| && Recoverable(g, crc, e, j) && SameChildren(g, crc, now, e)
  {
  }

  lemma FirstOfSteps(plan: seq<Op>, r: seq<Op>)
    requires r <= Steps(plan) && r != []
    ensures plan != [] && r[0] == plan[0]
  {
    if plan != [] {
      StepsHead(plan);
    }
  }

  /** The plan's first write is accepted and not yet flushed. */
  lemma OneOver(g: Geometry, crc: Checksum, base: Disk, log: seq<Op>, j: Job, e: Disk)
    requires g.Valid(|base|) && JobShape(g, j) && AllFollow(g, crc, base, log, j) && !AtRisk(g, crc, base, log, j)
    requires Announced(g, crc, Apply(base, log), j) && IntentValid(g, IntentOf(j))
    requires RecoverPlan(g, crc, Apply(base, log), Announcement(g, j), IntentOf(j)) != []
    requires CanCrashTo(base, log + [RecoverPlan(g, crc, Apply(base, log), Announcement(g, j), IntentOf(j))[0]], e)
    ensures
      var w := RecoverPlan(g, crc, Apply(base, log), Announcement(g, j), IntentOf(j))[0];
      Follows(g, crc, Apply(base, log + [w]), e, j)
  {
    hide At, Announced, IntentValid, Recoverable, SameChildren, Apply, RecoverPlan, Announces, JobShape, ApartInTable,
         ApplyOp, CanCrashTo, AtRisk, Full, VerdictAt;
    var now := Apply(base, log);
    var plan := RecoverPlan(g, crc, now, Announcement(g, j), IntentOf(j));
    var w := plan[0];
    var now' := Apply(base, log + [w]);
    NowIsCrashState(base, log);
    assert Follows(g, crc, now, now, j);
    ApplyOneMore(base, log, w);
    RecoverChildren(g, crc, now, j, 1);
    RecoverStates(g, crc, now, j, 0);
    ApplyHead(now, plan, 1);
    ApplyNothing(now');
    var p := LastCrash(base, log, w, e);
    assert Follows(g, crc, now, p, j);
    NotAtRisk(g, crc, base, log, j, p);
    FirstWriteOver(g, crc, now, p, j);
    ChildrenTrans(g, crc, now, now', e);
  }

  lemma LastCrash(base: Disk, log: seq<Op>, w: Op, e: Disk) returns (p: Disk)
    requires w.Write? && CanCrashTo(base, log + [w], e)
    ensures CanCrashTo(base, log, p) && (e == p || e == ApplyOp(p, w))
  {
    var all := log + [w];
    assert all[..|all| - 1] == log && all[|all| - 1] == w;
    p :| CanCrashTo(base, log, p) && (e == p || e == ApplyOp(p, w));
  }

  lemma NotAtRisk(g: Geometry, crc: Checksum, base: Disk, log: seq<Op>, j: Job, p: Disk)
    requires g.Valid(|base|) && JobShape(g, j) && !AtRisk(g, crc, base, log, j)
    requires |p| == |base| && CanCrashTo(base, log, p)
    ensures !(ApartInTable(g, j) && At(g, crc, Apply(base, log), j, false, true) && At(g, crc, p, j, false, false))
  {
    hide At, CanCrashTo, Apply, ApartInTable;
  }

  /** Once the first write is flushed, only states of the recovery survive. */
  lemma RestOver(g: Geometry, crc: Checksum, base: Disk, log: seq<Op>, j: Job, r: seq<Op>, e: Disk)
    requires g.Valid(|base|) && Recoverable(g, crc, Apply(base, log), j)
    requires Announced(g, crc, Apply(base, log), j) && IntentValid(g, IntentOf(j)) && |r| >= 2
    requires r <= Steps(RecoverPlan(g, crc, Apply(base, log), Announcement(g, j), IntentOf(j)))
    requires CanCrashTo(base, log + r, e)
    ensures Follows(g, crc, Apply(base, log + r), e, j)
  {
    hide Announced, IntentValid, Recoverable, Apply, RecoverPlan, CanCrashTo, Steps, Follows, VerdictAt, Full;
    var now := Apply(base, log);
    var plan := RecoverPlan(g, crc, now, Announcement(g, j), IntentOf(j));
    FirstOfSteps(plan, r);
    StepsHead(plan);
    var w, head, rest := plan[0], log + [plan[0], Flush], r[2..];
    assert r[..2] == [w, Flush] && log + r == head + rest;
    RecoverStates(g, crc, now, j, 0);
    CrashAfterFlush(base, head, rest, e);
    ApplyConcat(base, log, [w, Flush]);
    ApplyTwo(now, w);
    var d1 := ApplyOp(now, w);
    PlanTail(plan, r);
    var k := PlanCut(d1, plan[1..], rest, e);
    ApplyHead(now, plan, k + 1);
    var m := Reached(now, plan, r);
    ApplyConcat(base, log, r);
    StatesFollow(g, crc, now, j, m, k + 1);
  }

  /** What the session reads after part of a plan is the state after its first few writes. */
  lemma Reached(d: Disk, plan: seq<Op>, ops: seq<Op>) returns (m: nat)
    requires AllWrites(plan) && ops <= Steps(plan) && |ops| >= 2
    ensures 0 < m <= |plan| && Apply(d, ops) == Apply(d, plan[..m])
  {
    hide Apply, Steps;
    var i := |ops| / 2;
    RanTail(plan, ops);
    StepsApply(d, plan[..i]);
    if |ops| % 2 == 0 {
      m := i;
    } else {
      m := i + 1;
      ApplyOneMore(d, Steps(plan[..i]), plan[i]);
      ApplyOneMore(d, plan[..i], plan[i]);
      assert plan[..i] + [plan[i]] == plan[..i + 1];
    }
  }

  /** While extents are given back, the plan is through and flushed, and everything before it too. */
  lemma ReleaseOver(g: Geometry, crc: Checksum, base: Disk, log: seq<Op>, j: Job, r: seq<Op>, rel: seq<Op>, e: Disk)
    requires g.Valid(|base|) && Recoverable(g, crc, Apply(base, log), j)
    requires Announced(g, crc, Apply(base, log), j) && IntentValid(g, IntentOf(j))
    requires r == Steps(RecoverPlan(g, crc, Apply(base, log), Announcement(g, j), IntentOf(j)))
    requires
      var now, m := Apply(base, log), IntentOf(j);
      Freed(g, Apply(now, r), rel, m, VerdictAt(g, crc, now, m).Undo?)
    requires CanCrashTo(base, log + r + rel, e)
    ensures Follows(g, crc, Apply(base, log + r + rel), e, j)
  {
    hide Announced, IntentValid, Recoverable, RecoverPlan, CanCrashTo, Apply, FreeOps, Full, VerdictAt, Consistent,
         Steps, SameChildren, OnlyFreed, Announces;
    var now, m := Apply(base, log), IntentOf(j);
    var plan := RecoverPlan(g, crc, now, Announcement(g, j), m);
    var after := !VerdictAt(g, crc, now, m).Undo?;
    var x := if after then OldExtents(m) else NewExtents(m);
    RecoverStates(g, crc, now, j, |plan|);
    assert plan[..|plan|] == plan;
    PlanNotEmpty(g, crc, now, j);
    StepsApply(now, plan);
    StepsSettled(plan);
    SettledAfter(log, r);
    CrashAfterFlush(base, log + r, rel, e);
    ApplyConcat(base, log, r);
    ApplyConcat(base, log + r, rel);
    var d, end := Apply(now, r), Apply(base, log + r + rel);
    assert rel[..|rel|] == rel;
    FreeCut(g, d, rel, x, e);
    FreeApply(g, d, rel, x);
    FreedRecoverable(g, crc, d, e, j, after);
    FreedRecoverable(g, crc, d, end, j, after);
    RecoverableJob(g, crc, e, j);
    FreedFollows(g, crc, d, end, e, x, j, after);
  }

  lemma FreedFollows(g: Geometry, crc: Checksum, d: Disk, end: Disk, e: Disk, x: Two, j: Job, after: bool)
    requires g.Valid(|d|) && JobShape(g, j) && OnlyFreed(g, d, end, x) && OnlyFreed(g, d, e, x)
    requires Recoverable(g, crc, e, j) && Consistent(g, crc, end, j, after)
    ensures Follows(g, crc, end, e, j)
  {
    hide InodeAt, Carries, SuperAt, SameChildren, Allocated, Recoverable, DisjointExtents;
    assert TableSame(g, d, end) && TableSame(g, d, e);
    TableSameChildren(g, crc, d, end);
    TableSameChildren(g, crc, d, e);
    ChildrenTrans(g, crc, d, end, e);
  }

  lemma SettledAfter(a: seq<Op>, b: seq<Op>)
    requires Flushed(b)
    ensures Settled(a + b)
  {
  }

  lemma PlanNotEmpty(g: Geometry, crc: Checksum, d: Disk, j: Job)
    requires g.Valid(|d|) && IntentValid(g, IntentOf(j)) && !VerdictAt(g, crc, d, IntentOf(j)).Refuse?
    ensures RecoverPlan(g, crc, d, Announcement(g, j), IntentOf(j)) != []
  {
    hide VerdictAt, IntentValid, InodeAt;
  }

  /** A mount that is not at risk keeps every image that can survive in line with what the session reads. */
  lemma MountKeepsFollow(g: Geometry, crc: Checksum, base: Disk, log: seq<Op>, j: Job, ops: seq<Op>, done: bool)
    requires g.Valid(|base|) && JobShape(g, j) && Sane(g, j)
    requires AllFollow(g, crc, base, log, j) && !AtRisk(g, crc, base, log, j)
    requires MountRan(g, crc, Apply(base, log), j, ops, done)
    ensures AllFollow(g, crc, base, log + ops, j)
  {
    hide Announced, BothAnnounce, IntentValid, Recoverable, RecoverRan, CanCrashTo, Apply, AtRisk, JobShape, Sane,
         Follows;
    SaneIntent(g, j);
    if ops == [] {
      assert log + ops == log;
    } else {
      forall e: Disk | CanCrashTo(base, log + ops, e) ensures Follows(g, crc, Apply(base, log + ops), e, j) {
        RecoverOver(g, crc, base, log, j, ops, done, e);
      }
    }
  }

  lemma RecoverOver(g: Geometry, crc: Checksum, base: Disk, log: seq<Op>, j: Job, ops: seq<Op>, done: bool, e: Disk)
    requires g.Valid(|base|) && JobShape(g, j) && AllFollow(g, crc, base, log, j) && !AtRisk(g, crc, base, log, j)
    requires Announced(g, crc, Apply(base, log), j) && IntentValid(g, IntentOf(j))
    requires RecoverRan(g, crc, Apply(base, log), Announcement(g, j), IntentOf(j), ops, done)
    requires CanCrashTo(base, log + ops, e)
    ensures Follows(g, crc, Apply(base, log + ops), e, j)
  {
    hide Announced, IntentValid, Recoverable, RecoverPlan, CanCrashTo, Apply, Steps, AtRisk, JobShape, Freed,
         VerdictAt, Follows;
    var now, m := Apply(base, log), IntentOf(j);
    var plan := RecoverPlan(g, crc, now, Announcement(g, j), m);
    var r, rel :|
      && ops == r + rel && Ran(plan, r, rel != [] || done) && (done ==> Settled(rel))
      && Freed(g, Apply(now, r), rel, m, VerdictAt(g, crc, now, m).Undo?);
    NowIsCrashState(base, log);
    FollowsIs(g, crc, now, now, j);
    if rel == [] {
      assert ops == r;
      PlanOver(g, crc, base, log, j, r, e);
    } else {
      assert log + ops == log + r + rel;
      ReleaseOver(g, crc, base, log, j, r, rel, e);
    }
  }

  // ----- The risk is real -----

  lemma NotRecoverable(g: Geometry, crc: Checksum, e: Disk, j: Job)
    requires g.Valid(|e|) && JobShape(g, j) && At(g, crc, e, j, true, false)
    ensures !Recoverable(g, crc, e, j)
  {
    hide InodeAt, Carries, SuperAt, Sane, DisjointExtents;
  }

  /** Published over an image without the destination's publication, the source no longer lists the child. */
  lemma SourceAlone(g: Geometry, crc: Checksum, now: Disk, e: Disk, j: Job)
    requires g.Valid(|now|) && JobShape(g, j) && Full(g, crc, now, j, false, true) && Follows(g, crc, now, e, j)
    requires ApartInTable(g, j) && At(g, crc, e, j, false, false)
    ensures
      var e' := ApplyOp(e, PublishOp(g, crc, now, j.src1.inode));
      && |e'| == |now| && At(g, crc, e', j, true, false) && Known(g, crc, e', j) && Announces(g, crc, e', 0, j)
      && Carries(g, crc, e', j.src1) && Carries(g, crc, e', j.dst0)
  {
    hide InodeAt, Carries, PublishOp, Owns, SuperAt, SameChildren, DisjointExtents, ChildOk, ApartInTable, Sane;
    SourceOver(g, crc, now, e, j);
    AnnouncedIsFull(g, crc, e, j);
  }

  lemma OneMoreCrash(base: Disk, log: seq<Op>, w: Op, e: Disk)
    requires w.Write? && CanCrashTo(base, log, e)
    ensures CanCrashTo(base, log + [w], ApplyOp(e, w))
  {
    var all := log + [w];
    assert all[..|all| - 1] == log && all[|all| - 1] == w;
  }

  /** One write into its recovery, a mount at risk can be cut with the source as after and the destination as before. */
  lemma RiskIsReal(g: Geometry, crc: Checksum, base: Disk, log: seq<Op>, j: Job) returns (ops: seq<Op>, e: Disk)
    requires g.Valid(|base|) && Sane(g, j) && JobShape(g, j)
    requires AllFollow(g, crc, base, log, j) && AtRisk(g, crc, base, log, j)
    ensures MountRan(g, crc, Apply(base, log), j, ops, false) && CanCrashTo(base, log + ops, e)
    ensures |e| == |base| && At(g, crc, e, j, true, false) && Known(g, crc, e, j) && Announces(g, crc, e, 0, j)
    ensures !Recoverable(g, crc, e, j) && Carries(g, crc, e, j.src1) && Carries(g, crc, e, j.dst0)
  {
    hide At, Full, Recoverable, BothAnnounce, RecoverPlan, VerdictAt, IntentValid, CanCrashTo, PublishOp,
         DisjointExtents, Sane, Carries, ChildOk, SuperAt, Apply, Known, ApartInTable, SameChildren;
    var now := Apply(base, log);
    var e0: Disk :| |e0| == |base| && CanCrashTo(base, log, e0) && At(g, crc, e0, j, false, false);
    SaneIntent(g, j);
    NowIsCrashState(base, log);
    assert Follows(g, crc, now, now, j) && Follows(g, crc, now, e0, j);
    HalfDone(g, crc, now, j);
    PlanFinishes(g, crc, now, j);
    var plan := RecoverPlan(g, crc, now, Announcement(g, j), IntentOf(j));
    var p := plan[0];
    ops, e := [p], ApplyOp(e0, p);
    SourceAlone(g, crc, now, e0, j);
    NotRecoverable(g, crc, e, j);
    OneMoreCrash(base, log, p, e0);
    StepsHead(plan);
    assert [p] + [] == [p] && Ran(plan, [p], false);
    RecoverStates(g, crc, now, j, 0);
    NothingFreedOps(g, crc, now, j, [p]);
    RecoveredSo(g, crc, now, Announcement(g, j), IntentOf(j), [p], [p], [], false);
  }

  lemma NothingFreedOps(g: Geometry, crc: Checksum, d: Disk, j: Job, r: seq<Op>)
    requires g.Valid(|d|)
    ensures Freed(g, Apply(d, r), [], IntentOf(j), VerdictAt(g, crc, d, IntentOf(j)).Undo?)
  {
  }

  /**
   Mounting over unflushed writes. Every cut of the mount leaves a state that mounting can settle exactly if
   the session does not read the move half done while a power cut could still lose the destination's
   publication and the two inodes are in different sectors of the table.
   */
  lemma MountSafeIff(g: Geometry, crc: Checksum, base: Disk, log: seq<Op>, j: Job)
    requires g.Valid(|base|) && Sane(g, j) && JobShape(g, j) && AllFollow(g, crc, base, log, j)
    ensures MountSafe(g, crc, base, log, j) <==> !AtRisk(g, crc, base, log, j)
  {
    hide AtRisk, Sane, JobShape, Recoverable, MountRan, CanCrashTo, Apply, Known, Carries, At;
    if AtRisk(g, crc, base, log, j) {
      var ops, e := RiskIsReal(g, crc, base, log, j);
    } else {
      forall ops, done, e: Disk |
        MountRan(g, crc, Apply(base, log), j, ops, done) && CanCrashTo(base, log + ops, e)
        ensures Recoverable(g, crc, e, j)
      {
        MountKeepsFollow(g, crc, base, log, j, ops, done);
        FollowsIs(g, crc, Apply(base, log + ops), e, j);
      }
    }
  }

  // ----- Sessions -----

  /** A mount, completed or not, or a power cut. */
  datatype Event = Mounts(ops: seq<Op>, done: bool) | PowerCut(survivor: Disk)

  /** Events in which no mount starts at risk. */
  ghost predicate IsSession(g: Geometry, crc: Checksum, base: Disk, log: seq<Op>, j: Job, events: seq<Event>)
    requires g.Valid(|base|) && Sane(g, j) && JobShape(g, j)
    decreases |events|
  {
    events == [] ||
    match events[0]
    case Mounts(ops, done) =>
      && MountRan(g, crc, Apply(base, log), j, ops, done) && !AtRisk(g, crc, base, log, j)
      && IsSession(g, crc, base, log + ops, j, events[1..])
    case PowerCut(survivor) =>
      && CanCrashTo(base, log, survivor) && |survivor| == |base|
      && IsSession(g, crc, survivor, [], j, events[1..])
  }

  ghost function Ended(base: Disk, log: seq<Op>, events: seq<Event>): (Disk, seq<Op>)
    decreases |events|
  {
    if events == [] then (base, log)
    else match events[0]
         case Mounts(ops, _) => Ended(base, log + ops, events[1..])
         case PowerCut(survivor) => Ended(survivor, [], events[1..])
  }

  /** Over any number of mounts, failed or not, and power cuts, whatever can survive can be settled. */
  lemma {:induction false} SessionKeepsFollow(
    g: Geometry, crc: Checksum, base: Disk, log: seq<Op>, j: Job, events: seq<Event>)
    requires g.Valid(|base|) && Sane(g, j) && JobShape(g, j) && AllFollow(g, crc, base, log, j)
    requires IsSession(g, crc, base, log, j, events)
    ensures
      var (base', log') := Ended(base, log, events);
      g.Valid(|base'|) && AllFollow(g, crc, base', log', j)
    decreases |events|
  {
    hide Sane, JobShape, MountRan, AtRisk, Follows, Apply, Recoverable;
    if events != [] {
      match events[0] {
        case Mounts(ops, done) =>
          MountKeepsFollow(g, crc, base, log, j, ops, done);
          SessionKeepsFollow(g, crc, base, log + ops, j, events[1..]);
        case PowerCut(survivor) =>
          FollowsIs(g, crc, Apply(base, log), survivor, j);
          ApplyNothing(survivor);
          FollowsSelf(g, crc, survivor, j);
          SessionKeepsFollow(g, crc, survivor, [], j, events[1..]);
      }
    }
  }

  // ----- What a failed move leaves -----

  lemma DestinationChildren(g: Geometry, crc: Checksum, d: Disk, j: Job)
    requires g.Valid(|d|) && JobShape(g, j) && Full(g, crc, d, j, false, false)
    ensures SameChildren(g, crc, d, ApplyOp(d, PublishOp(g, crc, d, j.dst1.inode)))
  {
    hide InodeAt, Carries, PublishOp, SameChildren, DisjointExtents;
    SelfChildren(g, crc, d);
    PublishKeepsChildren(g, crc, d, d, j.dst0.inode, j.dst1.inode);
  }

  lemma ParentChildren(g: Geometry, crc: Checksum, d: Disk, j: Job, i: nat)
    requires g.Valid(|d|) && JobShape(g, j) && Full(g, crc, d, j, false, false) && i <= 2
    ensures
      var e := Apply(d, ParentPlan(g, crc, d, j)[..i]);
      |e| == |d| && SameChildren(g, crc, d, e)
  {
    hide Full, Apply, PublishOp, SameChildren, DisjointExtents, SuperAt;
    var plan := ParentPlan(g, crc, d, j);
    var d1 := ApplyOp(d, plan[0]);
    SelfChildren(g, crc, d);
    DestinationChildren(g, crc, d, j);
    PublishDestination(g, crc, d, j);
    SourceChildren(g, crc, d1, j);
    ChildrenTrans(g, crc, d, d1, ApplyOp(d1, plan[1]));
    TwoStates(d, plan[0], plan[1], i);
  }

  /** All states of a move have the children of the first. */
  lemma MoveChildren(g: Geometry, crc: Checksum, d: Disk, j: Job, i: nat)
    requires g.Valid(|d|) && JobShape(g, j) && Full(g, crc, d, j, false, false) && i <= 6
    ensures
      var e := Apply(d, MovePlan(g, crc, d, j)[..i]);
      |e| == |d| && SameChildren(g, crc, d, e)
  {
    hide Full, Apply, ParentPlan, PairPlan, SameChildren, JobShape;
    var a, c := PairPlan(crc, Announcement(g, j)), PairPlan(crc, Clear(g, j));
    var d1 := Apply(d, a);
    var b := ParentPlan(g, crc, d1, j);
    var d2 := Apply(d1, b);
    assert a[..2] == a && b[..2] == b;
    PairChildren(g, crc, d, Announcement(g, j), 2);
    AnnounceStates(g, crc, d, j, 2);
    ParentChildren(g, crc, d1, j, 2);
    ChildrenTrans(g, crc, d, d1, d2);
    ApplyConcat(d, a, b);
    PlanSplit(d, a + b, c, i);
    if i <= 2 {
      PlanSplit(d, a, b, i);
      PairChildren(g, crc, d, Announcement(g, j), i);
    } else if i <= 4 {
      PlanSplit(d, a, b, i);
      ParentChildren(g, crc, d1, j, i - 2);
      ChildrenTrans(g, crc, d, d1, Apply(d1, b[..i - 2]));
    } else {
      PairChildren(g, crc, d2, Clear(g, j), i - 4);
      ChildrenTrans(g, crc, d, d2, Apply(d2, c[..i - 4]));
    }
  }

  /** When the destination is published, both copies announce the move. */
  lemma AnnouncedFirst(g: Geometry, crc: Checksum, d: Disk, j: Job)
    requires g.Valid(|d|) && JobShape(g, j) && Full(g, crc, d, j, false, false)
    requires Sane(g, j) && QuietCopies(crc, d, Clear(g, j))
    ensures BothAnnounce(g, crc, Apply(d, MovePlan(g, crc, d, j)[..2]), j)
  {
    hide Full, Apply, ParentPlan, PairPlan, JobShape, Sane, QuietCopies, BothAnnounce, Recoverable;
    var a := PairPlan(crc, Announcement(g, j));
    var b := ParentPlan(g, crc, Apply(d, a), j);
    AnnounceStates(g, crc, d, j, 2);
    assert a[..2] == a && MovePlan(g, crc, d, j)[..2] == a;
  }

  lemma AtOnly(g: Geometry, crc: Checksum, d: Disk, j: Job, s: bool, t: bool)
    requires g.Valid(|d|) && JobShape(g, j) && Full(g, crc, d, j, s, t)
    ensures forall x, y :: At(g, crc, d, j, x, y) <==> x == s && y == t
  {
    hide InodeAt, Carries, DisjointExtents;
  }

  /** A state of the move and the one before it, seen from the later one. */
  lemma MoveStatesFollow(g: Geometry, crc: Checksum, d: Disk, j: Job, m: nat, k: nat)
    requires g.Valid(|d|) && JobShape(g, j) && Full(g, crc, d, j, false, false)
    requires Sane(g, j) && QuietCopies(crc, d, Clear(g, j)) && k <= m <= 6 && m <= k + 1
    ensures
      var plan := MovePlan(g, crc, d, j);
      Follows(g, crc, Apply(d, plan[..m]), Apply(d, plan[..k]), j)
  {
    hide Full, Apply, MovePlan, At, Recoverable, SameChildren, QuietCopies, Sane, JobShape, Announced;
    var plan := MovePlan(g, crc, d, j);
    var now, e := Apply(d, plan[..m]), Apply(d, plan[..k]);
    MoveStates(g, crc, d, j, m);
    MoveStates(g, crc, d, j, k);
    MoveChildren(g, crc, d, j, m);
    MoveChildren(g, crc, d, j, k);
    ChildrenTrans(g, crc, d, now, e);
    AtOnly(g, crc, now, j, m >= 4, m >= 3);
    AtOnly(g, crc, e, j, k >= 4, k >= 3);
    if m == 3 {
      if k == 2 {
        AnnouncedFirst(g, crc, d, j);
      } else {
        HalfDone(g, crc, e, j);
      }
    }
  }

  /**
   However far the plan of a move got before it failed, everything that can survive can be settled; a mount
   on top of it is at risk exactly if the plan stopped between the destination's inode write and its flush
   and the two inodes are in different sectors of the table.
   */
  lemma FailedMoveFollows(g: Geometry, crc: Checksum, d: Disk, j: Job, q: seq<Op>)
    requires g.Valid(|d|) && JobShape(g, j) && Full(g, crc, d, j, false, false)
    requires Sane(g, j) && QuietCopies(crc, d, Clear(g, j)) && q <= Steps(MovePlan(g, crc, d, j))
    ensures AllFollow(g, crc, d, q, j)
    ensures AtRisk(g, crc, d, q, j) <==> |q| == 5 && ApartInTable(g, j)
  {
    hide Full, Apply, MovePlan, At, Recoverable, SameChildren, QuietCopies, Sane, JobShape, Steps, CanCrashTo,
         Follows, ApartInTable;
    var plan := MovePlan(g, crc, d, j);
    var i := |q| / 2;
    var m := i + |q| % 2;
    RanTail(plan, q);
    var before, now := Apply(d, plan[..i]), Apply(d, plan[..m]);
    PlanAllWrites(g, crc, d, j);
    RanNow(d, plan, q, i, m);
    MoveStates(g, crc, d, j, i);
    MoveStates(g, crc, d, j, m);
    AtOnly(g, crc, before, j, i >= 4, i >= 3);
    AtOnly(g, crc, now, j, m >= 4, m >= 3);
    forall e: Disk | CanCrashTo(d, q, e) ensures e == now || e == before {
      MoveSurvivors(d, plan, q, i, m, e);
    }
    MoveStatesFollow(g, crc, d, j, m, m);
    MoveStatesFollow(g, crc, d, j, m, i);
    if |q| == 5 {
      MoveSurvivorBefore(d, plan, q);
    }
  }

  lemma MoveSurvivors(d: Disk, plan: seq<Op>, q: seq<Op>, i: nat, m: nat, e: Disk)
    requires AllWrites(plan) && q <= Steps(plan) && CanCrashTo(d, q, e) && i == |q| / 2 && m == i + |q| % 2
    ensures m <= |plan| && (e == Apply(d, plan[..i]) || e == Apply(d, plan[..m]))
  {
    hide Apply, Steps, CanCrashTo, ApplyOp;
    RanTail(plan, q);
    RanNow(d, plan, q, i, m);
    StepsApply(d, plan[..i]);
    StepsSettled(plan[..i]);
    if m == i {
      assert q + [] == q;
      CrashAfterFlush(d, q, [], e);
      NothingCrashes(Apply(d, q), e);
    } else {
      var w := plan[i];
      CrashAfterFlush(d, Steps(plan[..i]), [w], e);
      assert [w][..1] == [w];
      CrashPointOneWrite(Apply(d, plan[..i]), w, [w], e);
      ApplyOneMore(d, Steps(plan[..i]), w);
    }
  }

  lemma NothingCrashes(d: Disk, e: Disk)
    requires CanCrashTo(d, [], e)
    ensures e == d
  {
  }

  lemma MoveSurvivorBefore(d: Disk, plan: seq<Op>, q: seq<Op>)
    requires AllWrites(plan) && q <= Steps(plan) && |q| % 2 == 1
    ensures |q| / 2 <= |plan| && CanCrashTo(d, q, Apply(d, plan[..|q| / 2]))
  {
    hide Apply, Steps;
    var i := |q| / 2;
    RanTail(plan, q);
    StepsApply(d, plan[..i]);
    NowIsCrashState(d, Steps(plan[..i]));
    assert q[..|q| - 1] == Steps(plan[..i]);
  }

  // ----- Who lists the child -----

  lemma DescribesMoves(g: Geometry, crc: Checksum, d: Disk, j: Job, r: Request)
    requires g.Valid(|d|) && Describes(g, crc, d, j, r)
    ensures MovesChild(j)
  {
    hide View, NameStatus, DirectoryStatus, InodeAt, ExtentsOverlap;
    var i := LastPosition(j.src0.list, r.sourceName);
    assert j.src0.list[i].inodeId == j.childId;
    assert j.dst1.list[|j.dst0.list|].inodeId == j.childId;
  }

  /** Without the only entry of a child, a list does not have the child. */
  lemma TakenOut(entries: seq<Entry>, i: nat)
    requires i < |entries| && Once(entries, entries[i].inodeId)
    ensures !HasChild(WithoutEntry(entries, i), entries[i].inodeId)
  {
  }

  lemma DescribesTakesOut(g: Geometry, crc: Checksum, d: Disk, j: Job, r: Request)
    requires g.Valid(|d|) && Describes(g, crc, d, j, r) && Once(j.src0.list, j.childId)
    ensures !HasChild(j.src1.list, j.childId)
  {
    hide View, NameStatus, DirectoryStatus, InodeAt, ExtentsOverlap, Once, HasChild, WithoutEntry;
    TakenOut(j.src0.list, LastPosition(j.src0.list, r.sourceName));
  }

  /** On a volume that passed the checks of mounting, a move starts from a source that lists its child once. */
  lemma MountedListsOnce(g: Geometry, crc: Checksum, d: Disk, j: Job, r: Request)
    requires g.Valid(|d|) && Describes(g, crc, d, j, r) && Healthy(g, crc, d)
    ensures Once(j.src0.list, j.childId) && Owner(g, crc, d, j.childId, j.src0.inode.id)
  {
    hide View, NameStatus, DirectoryStatus, InodeAt, ExtentsOverlap, Once, Healthy, HasChild, MayHold;
    DescribesMoves(g, crc, d, j, r);
    ListedOnce(g, crc, d, j.src0.inode.id, j.src0.inode.id, j.childId);
  }

  /** In every state mounting can settle, one of the two directories lists the child. */
  lemma NeverLost(g: Geometry, crc: Checksum, d: Disk, j: Job)
    requires g.Valid(|d|) && Recoverable(g, crc, d, j) && MovesChild(j)
    ensures
      var s, t := View(g, crc, d, j.src0.inode.id), View(g, crc, d, j.dst0.inode.id);
      && s.Success? && t.Success?
      && (HasChild(s.value, j.childId) || HasChild(t.value, j.childId))
  {
    hide InodeAt, View, Carries, SuperAt, HasChild, DisjointExtents, Sane;
    var srcAfter, dstAfter := InodeAt(g, crc, d, j.src0.inode.id) == Success(j.src1.inode),
                              InodeAt(g, crc, d, j.dst0.inode.id) == Success(j.dst1.inode);
    CarriedView(g, crc, d, if srcAfter then j.src1 else j.src0);
    CarriedView(g, crc, d, if dstAfter then j.dst1 else j.dst0);
  }

  /** Once a move is settled, exactly one of them does: the source as before, the destination as after. */
  lemma OneOwner(g: Geometry, crc: Checksum, d0: Disk, d: Disk, j: Job, r: Request, after: bool)
    requires g.Valid(|d0|) && Describes(g, crc, d0, j, r) && Once(j.src0.list, j.childId)
    requires |d| == |d0| && JobShape(g, j) && Consistent(g, crc, d, j, after)
    ensures
      var s, t := View(g, crc, d, j.src0.inode.id), View(g, crc, d, j.dst0.inode.id);
      && s.Success? && t.Success?
      && (HasChild(s.value, j.childId) <==> !after) && (HasChild(t.value, j.childId) <==> after)
  {
    hide InodeAt, View, Carries, HasChild, DisjointExtents, Describes, Once;
    DescribesMoves(g, crc, d0, j, r);
    DescribesTakesOut(g, crc, d0, j, r);
    CarriedView(g, crc, d, if after then j.src1 else j.src0);
    CarriedView(g, crc, d, if after then j.dst1 else j.dst0);
  }

  /** In the image that a mount at risk can leave, neither directory lists the child. */
  lemma LostByBoth(g: Geometry, crc: Checksum, d0: Disk, e: Disk, j: Job, r: Request)
    requires g.Valid(|d0|) && Describes(g, crc, d0, j, r) && Once(j.src0.list, j.childId)
    requires |e| == |d0| && JobShape(g, j) && At(g, crc, e, j, true, false)
    requires Carries(g, crc, e, j.src1) && Carries(g, crc, e, j.dst0)
    ensures
      var s, t := View(g, crc, e, j.src0.inode.id), View(g, crc, e, j.dst0.inode.id);
      && s.Success? && t.Success?
      && !HasChild(s.value, j.childId) && !HasChild(t.value, j.childId)
  {
    hide InodeAt, View, Carries, HasChild, DisjointExtents, Describes, Once;
    DescribesMoves(g, crc, d0, j, r);
    DescribesTakesOut(g, crc, d0, j, r);
    CarriedView(g, crc, e, j.src1);
    CarriedView(g, crc, e, j.dst0);
  }

  // ----- An announcement left standing -----

  /** A move cut before its last write: the primary copy still announces it, the secondary one does not. */
  lemma LastWriteMissing(g: Geometry, crc: Checksum, d: Disk, j: Job)
    requires g.Valid(|d|) && JobShape(g, j) && Full(g, crc, d, j, false, false)
    requires Sane(g, j) && QuietCopies(crc, d, Clear(g, j))
    ensures
      var e := Apply(d, MovePlan(g, crc, d, j)[..5]);
      && |e| == |d| && Announces(g, crc, e, 0, j) && Quiet(g, crc, e, 1, j)
      && Recoverable(g, crc, e, j) && Consistent(g, crc, e, j, true)
  {
    hide Full, Apply, ParentPlan, PairPlan, JobShape, Sane, QuietCopies, Recoverable, SuperAt, Consistent;
    var a, c := PairPlan(crc, Announcement(g, j)), PairPlan(crc, Clear(g, j));
    var d1 := Apply(d, a);
    var b := ParentPlan(g, crc, d1, j);
    var d2 := Apply(d1, b);
    assert a[..2] == a && b[..2] == b;
    AnnounceStates(g, crc, d, j, 2);
    ParentsKeepCopies(g, crc, d1, j);
    ApplyConcat(d, a, b);
    PlanSplit(d, a + b, c, 5);
    FirstClear(g, crc, d2, j);
    MoveStates(g, crc, d, j, 5);
    FullIsAt(g, crc, Apply(d, MovePlan(g, crc, d, j)[..5]), j, true, true);
  }

  lemma ParentsKeepCopies(g: Geometry, crc: Checksum, d: Disk, j: Job)
    requires g.Valid(|d|) && JobShape(g, j) && Full(g, crc, d, j, false, false)
    ensures BothCopies(crc, d, Apply(d, ParentPlan(g, crc, d, j)))
  {
    hide Full, Apply, PublishOp, DisjointExtents, SuperAt;
    var plan := ParentPlan(g, crc, d, j);
    PublishDestination(g, crc, d, j);
    PublishSource(g, crc, ApplyOp(d, plan[0]), j);
    assert plan[..2] == plan;
    TwoStates(d, plan[0], plan[1], 2);
  }

  lemma FirstClear(g: Geometry, crc: Checksum, d: Disk, j: Job)
    requires g.Valid(|d|) && Sane(g, j) && Announces(g, crc, d, 0, j)
    ensures
      var e := Apply(d, PairPlan(crc, Clear(g, j))[..1]);
      Announces(g, crc, e, 0, j) && Quiet(g, crc, e, 1, j)
  {
    hide Apply, EncodeSuper, SuperAt, Sane;
    ClearIsWritable(g, j);
    SuperWriteCopies(g, crc, d, 1, Clear(g, j));
    TwoStates(d, SuperWrite(crc, 1, Clear(g, j)), SuperWrite(crc, 0, Clear(g, j)), 1);
  }

  /**
   An announcement that a successful mount leaves standing: power is cut before the last write of a move, and
   the next mount cannot read the primary copy. It takes the secondary one, finds nothing to recover, and
   succeeds on any volume that passes its checks.
   */
  lemma AnnouncementStands(g: Geometry, crc: Checksum, d: Disk, j: Job)
    requires g.Valid(|d|) && JobShape(g, j) && Full(g, crc, d, j, false, false)
    requires Sane(g, j) && QuietCopies(crc, d, Clear(g, j))
    ensures
      var e := Apply(d, MovePlan(g, crc, d, j)[..5]);
      var primary, secondary := Failure(BlockDeviceError), SuperAt(crc, e, 1);
      && |e| == |d| && Announces(g, crc, e, 0, j) && Missed(g, crc, e, j, primary, secondary)
      && Select(primary, secondary) == Success(Clear(g, j))
      && (Healthy(g, crc, e) ==> MountRan(g, crc, e, j, [], true))
  {
    hide Full, Apply, MovePlan, JobShape, QuietCopies, Recoverable, SuperAt, Consistent, Healthy, Sane, RecoverRan;
    LastWriteMissing(g, crc, d, j);
    ApplyNothing(Apply(d, MovePlan(g, crc, d, j)[..5]));
  }
}
