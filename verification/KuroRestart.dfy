/**
 Moves and power cuts on a whole volume: a move that succeeds leaves the volume
 as healthy as it found it, and after a move that did not, mounting does.
 */
module KuroRestart {
  import opened Bytes
  import opened KuroDisk
  import opened KuroBitmap
  import opened KuroAlloc
  import opened KuroInode
  import opened KuroDirectory
  import opened KuroAppendOp
  import opened KuroVersion
  import opened KuroSuper
  import opened KuroRelease
  import opened KuroPlan
  import opened KuroOwner
  import opened KuroCheck
  import opened KuroMoveState
  import opened KuroMoveRecover
  import opened KuroMovePlan
  import opened KuroMount
  import opened KuroMoveJob
  import opened KuroMove
  import opened KuroMoveFrame
  import opened KuroMoveTree

  // ----- The volume a move starts from -----

  /** On a healthy volume nobody shares a block with the parents. */
  lemma HealthyLone(g: Geometry, crc: Checksum, d: Disk, j: Job)
    requires g.Valid(|d|) && Healthy(g, crc, d) && At(g, crc, d, j, false, false)
    ensures Lone(g, crc, d, j)
  {
    hide InodeAt, SlotAt, Healthy, Owns, DisjointExtents, ExtentsOverlap;
    var s, t := j.src0.inode, j.dst0.inode;
    forall i: Inode | Other(g, crc, d, j, i) ensures DisjointExtents(i, s) && DisjointExtents(i, t) {
      EachApart(g, crc, d, i.id, s.id);
      EachApart(g, crc, d, i.id, t.id);
    }
  }

  lemma EachApart(g: Geometry, crc: Checksum, d: Disk, a: U64, b: U64)
    requires g.Valid(|d|) && Healthy(g, crc, d) && a != b
    requires InodeAt(g, crc, d, a).Success? && InodeAt(g, crc, d, b).Success?
    ensures DisjointExtents(InodeAt(g, crc, d, a).value, InodeAt(g, crc, d, b).value)
  {
    hide InodeAt, SlotAt, Healthy;
    if a < b {
      BothOther(g, crc, d, a, b);
    } else {
      BothOther(g, crc, d, b, a);
    }
  }

  /** A healthy volume on which the move j has begun. */
  ghost predicate Start(g: Geometry, crc: Checksum, d0: Disk, j: Job, r: Request)
    requires g.Valid(|d0|)
  {
    && Healthy(g, crc, d0) && Describes(g, crc, d0, j, r) && JobBegun(g, crc, d0, j)
    && j.generation != 0 && j.features <= 3 && j.features % 2 == 1
  }

  /** A successful move takes a healthy volume to a healthy volume: the same tree with the entry moved. */
  lemma MoveKeepsHealthy(g: Geometry, crc: Checksum, d0: Disk, start: Super, j: Job, r: Request, ops: seq<Op>)
    requires g.Valid(|d0|) && Start(g, crc, d0, j, r) && AttemptRan(g, crc, d0, start, j, ops, true)
    ensures Outcome(g, crc, d0, Apply(d0, ops), j, r, true) && Healthy(g, crc, Apply(d0, ops))
  {
    hide Healthy, Describes, JobBegun, AttemptRan, Frame, Secluded, Lone, CrashPoint, Apply, Consistent, Sane, JobShape,
         QuietCopies, Untouched, Recoverable;
    var d := Apply(d0, ops);
    BegunAt(g, crc, d0, j);
    HealthyLone(g, crc, d0, j);
    NowIsCrashPoint(d0, ops);
    AttemptFrame(g, crc, d0, start, j, ops, true, d);
    AttemptCut(g, crc, d0, start, j, ops, true, d);
    OutcomeIsHealthy(g, crc, d0, d, j, r, true);
  }

  lemma BegunAt(g: Geometry, crc: Checksum, d: Disk, j: Job)
    requires g.Valid(|d|) && JobBegun(g, crc, d, j)
    ensures At(g, crc, d, j, false, false) && Consistent(g, crc, d, j, false)
  {
    hide InodeAt, Carries, Validated;
  }

  // ----- What a power cut leaves -----

  /** Between the two parents' publications or before or after both; the rest of the volume is that of d0. */
  ghost predicate MidMove(g: Geometry, crc: Checksum, d0: Disk, e: Disk, j: Job, r: Request)
    requires g.Valid(|d0|)
  {
    && Healthy(g, crc, d0) && Describes(g, crc, d0, j, r) && JobShape(g, j) && Sane(g, j)
    && Secluded(g, crc, d0, j) && Frame(g, crc, d0, e, j) && |e| == |d0|
    && ((Consistent(g, crc, e, j, false) && NothingAnnounced(g, crc, e)) || Recoverable(g, crc, e, j))
  }

  lemma QuietIsUnannounced(g: Geometry, crc: Checksum, d: Disk, clear: Super)
    requires QuietCopies(crc, d, clear) && clear.geometry == g && clear.move.None?
    ensures NothingAnnounced(g, crc, d)
  {
    hide SuperAt;
  }

  /** The feature upgrade, wherever it is cut. */
  lemma UpgradeMid(g: Geometry, crc: Checksum, d0: Disk, start: Super, j: Job, f: seq<Op>, e: Disk)
    requires g.Valid(|d0|) && JobBegun(g, crc, d0, j) && j.generation != 0 && j.features <= 3
    requires QuietCopies(crc, d0, start) && Precedes(start, Clear(g, j))
    requires f <= Steps(PairPlan(crc, Clear(g, j))) && CrashPoint(d0, f, e)
    ensures |e| == |d0| && Consistent(g, crc, e, j, false) && NothingAnnounced(g, crc, e)
  {
    hide JobBegun, Untouched, SuperAt, Apply, CrashPoint, EncodeSuper, Consistent, QuietCopies, NothingAnnounced, Steps;
    var plan := PairPlan(crc, Clear(g, j));
    QuietWritable(g, j);
    var i := PlanCrashPoint(d0, plan, f, e);
    FeatureStates(g, crc, d0, Clear(g, j), j, i);
    BegunAt(g, crc, e, j);
    UpgradeCopies(g, crc, d0, start, j, i);
  }

  lemma UpgradeCopies(g: Geometry, crc: Checksum, d0: Disk, start: Super, j: Job, i: nat)
    requires g.Valid(|d0|) && QuietCopies(crc, d0, start) && Precedes(start, Clear(g, j)) && i <= 2
    requires Writable(Clear(g, j), |d0|)
    ensures NothingAnnounced(g, crc, Apply(d0, PairPlan(crc, Clear(g, j))[..i]))
  {
    hide SuperAt, Apply, EncodeSuper, NothingAnnounced, Writable;
    var x := Clear(g, j);
    var v, w := SuperWrite(crc, 1, x), SuperWrite(crc, 0, x);
    var d1 := ApplyOp(d0, v);
    SuperWriteCopies(g, crc, d0, 1, x);
    SuperWriteCopies(g, crc, d1, 0, x);
    TwoStates(d0, v, w, i);
    if i == 0 {
      QuietIsUnannounced(g, crc, d0, start);
    } else if i == 1 {
      QuietIsUnannounced(g, crc, d1, x);
    } else {
      QuietIsUnannounced(g, crc, ApplyOp(d1, w), x);
    }
  }

  /** The preparation, wherever it is cut. */
  lemma PrepareMid(g: Geometry, crc: Checksum, d: Disk, j: Job, p: seq<Op>, e: Disk)
    requires g.Valid(|d|) && JobBegun(g, crc, d, j) && QuietCopies(crc, d, Clear(g, j))
    requires GrowOps(g, d, p) && CrashPoint(d, p, e)
    ensures |e| == |d| && Consistent(g, crc, e, j, false) && NothingAnnounced(g, crc, e)
  {
    hide JobBegun, SuperAt, CrashPoint, GrowOps, OnlyGrew, Carries, InodeAt, NothingAnnounced;
    GrowCrash(g, d, p, e);
    GrewLength(g, d, e);
    BegunAt(g, crc, d, j);
    GrewSame(g, crc, d, e, j.src0.inode.id);
    GrewSame(g, crc, d, e, j.dst0.inode.id);
    GrewSame(g, crc, d, e, j.childId);
    GrewCarries(g, crc, d, e, j.src0);
    GrewCarries(g, crc, d, e, j.dst0);
    QuietIsUnannounced(g, crc, e, Clear(g, j));
  }

  lemma NoWriteMid(g: Geometry, crc: Checksum, d: Disk, start: Super, j: Job, e: Disk)
    requires g.Valid(|d|) && JobBegun(g, crc, d, j) && QuietCopies(crc, d, start) && start == Clear(g, j)
    requires CrashPoint(d, [], e)
    ensures |e| == |d| && Consistent(g, crc, e, j, false) && NothingAnnounced(g, crc, e)
  {
    hide JobBegun, QuietCopies, CrashPoint, Consistent, NothingAnnounced;
    NoCut(d, e);
    BegunAt(g, crc, d, j);
    QuietIsUnannounced(g, crc, d, start);
  }

  /** Where an attempt is cut, both directories are as before with nothing announced, or mounting settles them. */
  lemma AttemptMid(g: Geometry, crc: Checksum, d0: Disk, start: Super, j: Job, ops: seq<Op>, done: bool, e: Disk)
    requires g.Valid(|d0|) && JobBegun(g, crc, d0, j) && AttemptRan(g, crc, d0, start, j, ops, done)
    requires j.generation != 0 && j.features <= 3 && j.features % 2 == 1
    requires CrashPoint(d0, ops, e) && QuietCopies(crc, d0, start)
    ensures |e| == |d0|
    ensures (Consistent(g, crc, e, j, false) && NothingAnnounced(g, crc, e)) || Recoverable(g, crc, e, j)
  {
    hide JobBegun, JobReady, CrashPoint, Apply, Untouched, Recoverable, Consistent, Full, Sane, JobShape, QuietCopies,
         MovePlan, FreeOps, GrowOps, Steps, PairPlan, OnlyGrew, NothingAnnounced, FreshExtent, Precedes;
    var f, p, q, rel :| ops == f + (p + (q + rel)) && Stretches(g, crc, d0, start, j, f, p, q, rel, done);
    var d1 := Apply(d0, f);
    var d2 := Apply(d1, p);
    BegunFeature(g, crc, d0, start, j, f);
    ReadySane(g, crc, d1, d2, j);
    ReadyFacts(g, crc, d1, d2, j);
    ReadyQuiet(g, crc, d1, d2, j);
    CrashPointSplit(d0, f, p + (q + rel), e);
    if CrashPoint(d0, f, e) {
      if f == [] {
        NoWriteMid(g, crc, d0, start, j, e);
      } else {
        UpgradeMid(g, crc, d0, start, j, f, e);
      }
    } else {
      CrashPointSplit(d1, p, q + rel, e);
      if CrashPoint(d1, p, e) {
        PrepareMid(g, crc, d1, j, p, e);
      } else {
        PublishCut(g, crc, d2, j, q, rel, done, e);
        RecoverableLength(g, crc, d2, e, j);
      }
    }
  }

  lemma RecoverableLength(g: Geometry, crc: Checksum, d: Disk, e: Disk, j: Job)
    requires g.Valid(|d|) && Recoverable(g, crc, e, j)
    ensures |e| == |d|
  {
    hide JobShape, Sane, CopiesOk, Consistent, Full, Announced;
  }

  /** Wherever power is cut during a move on a healthy volume. */
  lemma MoveCutIsMid(
    g: Geometry, crc: Checksum, d0: Disk, start: Super, j: Job, r: Request, ops: seq<Op>, done: bool, e: Disk)
    requires g.Valid(|d0|) && Start(g, crc, d0, j, r) && AttemptRan(g, crc, d0, start, j, ops, done)
    requires CrashPoint(d0, ops, e) && QuietCopies(crc, d0, start)
    ensures MidMove(g, crc, d0, e, j, r)
  {
    hide Healthy, Describes, JobBegun, AttemptRan, Frame, Secluded, Lone, CrashPoint, Consistent, Sane, JobShape,
         QuietCopies, Untouched, Recoverable, NothingAnnounced, Apply;
    BegunAt(g, crc, d0, j);
    HealthyLone(g, crc, d0, j);
    AttemptFrame(g, crc, d0, start, j, ops, done, e);
    AttemptCut(g, crc, d0, start, j, ops, done, e);
    AttemptMid(g, crc, d0, start, j, ops, done, e);
  }

  // ----- Mounting again -----

  /** Wherever the mount itself is cut, the next one finds such a volume again. */
  lemma MountCutIsMid(
    g: Geometry, crc: Checksum, d0: Disk, d: Disk, j: Job, r: Request, ops: seq<Op>, done: bool, e: Disk)
    requires g.Valid(|d0|) && MidMove(g, crc, d0, d, j, r) && |d| == |d0| && Sane(g, j) && Recoverable(g, crc, d, j)
    requires MountRan(g, crc, d, j, ops, done) && CrashPoint(d, ops, e)
    ensures MidMove(g, crc, d0, e, j, r)
  {
    hide Healthy, Describes, Frame, Secluded, CrashPoint, Consistent, Sane, JobShape, Recoverable, NothingAnnounced,
         Apply, RecoverRan, Announced, BothAnnounce, MovesChild, IntentValid;
    SaneIntent(g, j);
    MountCut(g, crc, d, j, ops, done);
    if ops == [] {
      NoCut(d, e);
    } else {
      RecoverFrame(g, crc, d0, d, j, ops, done, e);
    }
    RecoverableLength(g, crc, d0, e, j);
  }

  lemma MidSettled(g: Geometry, crc: Checksum, d0: Disk, d: Disk, j: Job, r: Request, after: bool)
    requires g.Valid(|d0|) && MidMove(g, crc, d0, d, j, r) && |d| == |d0| && Consistent(g, crc, d, j, after)
    ensures Outcome(g, crc, d0, d, j, r, after) && Healthy(g, crc, d)
  {
    hide Healthy, Describes, Frame, Secluded, Consistent, Sane, JobShape, Recoverable, NothingAnnounced;
    OutcomeIsHealthy(g, crc, d0, d, j, r, after);
  }

  lemma MidFacts(g: Geometry, crc: Checksum, d0: Disk, d: Disk, j: Job, r: Request)
    requires g.Valid(|d0|) && MidMove(g, crc, d0, d, j, r)
    ensures |d| == |d0| && Sane(g, j) && JobShape(g, j) && MovesChild(j)
    ensures !Recoverable(g, crc, d, j) ==> Consistent(g, crc, d, j, false) && NothingAnnounced(g, crc, d)
    ensures Recoverable(g, crc, d, j) ==> Known(g, crc, d, j)
  {
    hide Healthy, Describes, Frame, Secluded, Consistent, Sane, JobShape, Recoverable, NothingAnnounced, Known,
         HasChild;
    KnownFacts(g, crc, d, j);
    ListedByBoth(g, crc, d0, j, r);
    MovedLists(g, crc, d0, j, r, j.childId);
  }

  /** What a mount that ran has left, wherever it is cut. */
  lemma RestartCuts(g: Geometry, crc: Checksum, d0: Disk, d: Disk, j: Job, r: Request, ops: seq<Op>, done: bool)
    requires g.Valid(|d0|) && MidMove(g, crc, d0, d, j, r) && |d| == |d0| && Sane(g, j)
    requires if Recoverable(g, crc, d, j) then MountRan(g, crc, d, j, ops, done) else ops == []
    ensures forall e: Disk :: CrashPoint(d, ops, e) ==> MidMove(g, crc, d0, e, j, r)
    ensures MidMove(g, crc, d0, Apply(d, ops), j, r)
  {
    hide MidMove, Sane, Recoverable, MountRan, CrashPoint, Apply;
    forall e: Disk | CrashPoint(d, ops, e) ensures MidMove(g, crc, d0, e, j, r) {
      if Recoverable(g, crc, d, j) {
        MountCutIsMid(g, crc, d0, d, j, r, ops, done, e);
      } else {
        NoCut(d, e);
      }
    }
    NowIsCrashPoint(d, ops);
  }

  /** A healthy volume: d0 with the move undone or done, and nothing else changed. */
  ghost predicate SettledVolume(g: Geometry, crc: Checksum, d0: Disk, d: Disk, j: Job, r: Request)
    requires g.Valid(|d0|)
  {
    |d| == |d0| && Healthy(g, crc, d) && exists after :: Outcome(g, crc, d0, d, j, r, after)
  }

  lemma RestartEnds(g: Geometry, crc: Checksum, d0: Disk, end: Disk, j: Job, r: Request)
    requires g.Valid(|d0|) && MidMove(g, crc, d0, end, j, r) && |end| == |d0|
    ensures (exists after :: Consistent(g, crc, end, j, after)) ==>
      SettledVolume(g, crc, d0, end, j, r) && Healthy(g, crc, end)
  {
    hide MidMove, Outcome, Consistent, Healthy;
    if after :| Consistent(g, crc, end, j, after) {
      MidSettled(g, crc, d0, end, j, r, after);
    }
  }

  /**
   Mounting after a power cut in the middle of a move on a healthy volume. If it succeeds, the volume is that
   volume with the move undone or done, and nothing else changed; without device errors it does succeed. If
   it is cut itself, the next mount is in the same position.
   */
  method Restart(device: Device, checksum: Checksum, ghost g: Geometry, ghost d0: Disk, ghost j: Job, ghost r: Request)
    returns (status: Status, fs: FileSystem)
    requires g.Valid(|d0|) && MidMove(g, checksum, d0, device.sectors, j, r)
    modifies device
    ensures old(device.log) <= device.log
    ensures forall e: Disk :: CrashPoint(old(device.sectors), device.Since(|old(device.log)|), e) ==>
      MidMove(g, checksum, d0, e, j, r)
    ensures status == Ok ==>
      fs.device == device && fs.mounted && fs.geometry == g && SettledVolume(g, checksum, d0, device.sectors, j, r)
    ensures device.reliable ==> status == Ok
  {
    hide Apply, Healthy, SettledVolume, Recoverable, MidMove, CrashPoint, MountRan, NothingAnnounced, Consistent,
         Announced, CutRecoverable, MovesChild, Missed, VerdictAt, IntentValid, Select, Known, ReadAs, Noticed, Sane,
         JobShape, Settled, Clear;
    ghost var d, n := device.sectors, |device.log|;
    MidFacts(g, checksum, d0, d, j, r);
    ApplyNothing(d);
    var s: Super;
    ghost var primary, secondary;
    status, fs, s, primary, secondary := Mount(device, checksum, g, j);
    ghost var ops, end := device.Since(n), device.sectors;
    assert device.log == device.log[..n] + ops;
    RestartCuts(g, checksum, d0, d, j, r, ops, status == Ok);
    MidFacts(g, checksum, d0, end, j, r);
    RestartEnds(g, checksum, d0, end, j, r);
  }
}
