/**
 A move on top of writes that earlier operations left unflushed: until its first
 flush it adds nothing to what can be lost, and from then on it is as if it had
 started on a flushed device.
 */
module KuroMoveOver {
  import opened KuroDisk
  import opened KuroBitmap
  import opened KuroExtent
  import opened KuroInode
  import opened KuroDirectory
  import opened KuroDirFrame
  import opened KuroVersion
  import opened KuroSuper
  import opened KuroRelease
  import opened KuroPlan
  import opened KuroMoveState
  import opened KuroMoveRecover
  import opened KuroMovePlan
  import opened KuroMoveJob
  import opened KuroRemount

  // ----- Flushed beginnings -----

  /** After a flush, what was below it does not matter. */
  lemma {:induction false} CrashOnFlushed(d0: Disk, a: seq<Op>, b: seq<Op>, d: Disk)
    requires Settled(a) && a != []
    requires CanCrashTo(Apply(d0, a), b, d)
    ensures CanCrashTo(d0, a + b, d)
    decreases |b|
  {
    if b == [] {
      assert a + b == a;
      FlushIsAll(d0, a);
    } else {
      var c, last := b[..|b| - 1], b[|b| - 1];
      assert (a + b)[..|a + b| - 1] == a + c;
      if last.Flush? {
        ApplyConcat(d0, a, c);
      } else {
        var p: Disk :| CanCrashTo(Apply(d0, a), c, p) && (d == p || d == ApplyOp(p, last));
        CrashOnFlushed(d0, a, c, p);
      }
    }
  }

  lemma FlushIsAll(d0: Disk, a: seq<Op>)
    requires Settled(a) && a != []
    ensures CanCrashTo(d0, a, Apply(d0, a))
  {
    NowIsCrashState(d0, a);
  }

  /** A log with a flushed stretch on top survives as that stretch does alone. */
  lemma SameSurvivors(base: Disk, log: seq<Op>, a: seq<Op>, b: seq<Op>, e: Disk)
    requires Flushed(a) && CanCrashTo(base, log + a + b, e)
    ensures CanCrashTo(Apply(base, log), a + b, e)
  {
    hide CanCrashTo, Apply;
    SettledAfter(log, a);
    CrashAfterFlush(base, log + a, b, e);
    ApplyConcat(base, log, a);
    CrashOnFlushed(Apply(base, log), a, b, e);
  }

  // ----- Until the first flush -----

  /** Both directories of the move can be read in e, in one of two versions each, and no copy announces a move. */
  ghost predicate FitsBoth(
    g: Geometry, crc: Checksum, now: Disk, e: Disk, s: Version, s': Version, t: Version, t': Version)
    requires g.Valid(|now|)
  {
    Fits(g, crc, now, e, s, s') && Fits(g, crc, now, e, t, t') && KuroMoveJob.NoMove(crc, e)
  }

  /** So they can in everything that can survive, and the current versions are those of the move. */
  ghost predicate AllFit(
    g: Geometry, crc: Checksum, base: Disk, log: seq<Op>, s: Version, t: Version, j: Job)
    requires g.Valid(|base|)
  {
    && Apart(s.inode, j.src0.inode) && Apart(t.inode, j.dst0.inode)
    && forall e: Disk :: CanCrashTo(base, log, e) ==>
         FitsBoth(g, crc, Apply(base, log), e, s, j.src0, t, j.dst0)
  }

  lemma SuperFits(g: Geometry, crc: Checksum, now: Disk, e: Disk, block: nat, sector: Sector, o: Version, c: Version)
    requires g.Valid(|now|) && Fits(g, crc, now, e, o, c) && block < 2
    ensures Fits(g, crc, now, ApplyOp(e, Op.Write(block, sector)), o, c)
  {
    hide Carries, InodeAt, SameChildren, TableSame;
    var e' := ApplyOp(e, Op.Write(block, sector));
    SuperWriteTable(g, e, block, sector);
    TableSameChildren(g, crc, e, e');
    ChildrenTrans(g, crc, now, e, e');
    TableSameInode(g, crc, e, e', c.inode.id);
    SuperWriteCarries(g, crc, e, block, sector, o);
    SuperWriteCarries(g, crc, e, block, sector, c);
  }

  lemma ClearFits(
    g: Geometry, crc: Checksum, now: Disk, e: Disk, x: Super, s: Version, s': Version, t: Version, t': Version)
    requires g.Valid(|now|) && FitsBoth(g, crc, now, e, s, s', t, t') && Writable(x, |now|) && x.move.None?
    ensures FitsBoth(g, crc, now, ApplyOp(e, SuperWrite(crc, 1, x)), s, s', t, t')
  {
    hide Fits, SuperAt, Writable, EncodeSuper;
    assert |e| == |now| by { FitsLength(g, crc, now, e, s, s'); }
    SuperFits(g, crc, now, e, 1, EncodeSuper(crc, x), s, s');
    SuperFits(g, crc, now, e, 1, EncodeSuper(crc, x), t, t');
    SuperWriteCopies(g, crc, e, 1, x);
  }

  lemma FitsLength(g: Geometry, crc: Checksum, now: Disk, e: Disk, o: Version, c: Version)
    requires g.Valid(|now|) && Fits(g, crc, now, e, o, c)
    ensures |e| == |now|
  {
  }

  lemma GrowFits(
    g: Geometry, crc: Checksum, now: Disk, e: Disk, op: Op, s: Version, s': Version, t: Version, t': Version)
    requires g.Valid(|now|) && FitsBoth(g, crc, now, e, s, s', t, t') && FitsBoth(g, crc, now, now, s, s', t, t')
    requires GrowOp(g, now, op) && Apart(s.inode, s'.inode) && Apart(t.inode, t'.inode)
    ensures FitsBoth(g, crc, now, ApplyOp(e, op), s, s', t, t')
  {
    hide Fits, SuperAt, GrowOp, Apart;
    assert |e| == |now| by { FitsLength(g, crc, now, e, s, s'); }
    GrowHarmless(g, now, op, s'.inode);
    GrowHarmless(g, now, op, t'.inode);
    HarmlessFits(g, crc, now, e, op, s, s');
    HarmlessFits(g, crc, now, e, op, t, t');
    GrowCopies(g, crc, now, e, op);
  }

  lemma GrowHarmless(g: Geometry, d: Disk, op: Op, dir: Inode)
    requires GrowOp(g, d, op)
    ensures Harmless(g, d, op, dir)
  {
    hide GrowOp;
  }

  lemma GrowCopies(g: Geometry, crc: Checksum, now: Disk, e: Disk, op: Op)
    requires g.Valid(|now|) && |e| == |now| && GrowOp(g, now, op)
    ensures SuperAt(crc, ApplyOp(e, op), 0) == SuperAt(crc, e, 0)
    ensures SuperAt(crc, ApplyOp(e, op), 1) == SuperAt(crc, e, 1)
  {
    hide DecodeSuper, SectorBit;
  }

  /** An unflushed beginning of writes that each keep both directories readable. */
  lemma BeginFits(
    g: Geometry, crc: Checksum, base: Disk, log: seq<Op>, s: Version, t: Version, j: Job, a: seq<Op>, e: Disk)
    requires g.Valid(|base|) && AllFit(g, crc, base, log, s, t, j) && CanCrashTo(base, log + a, e)
    requires a == [] || a == [SuperWrite(crc, 1, Clear(g, j))] || GrowOps(g, Apply(base, log), a)
    requires Writable(Clear(g, j), |base|)
    ensures FitsBoth(g, crc, Apply(base, log), e, s, j.src0, t, j.dst0)
  {
    hide FitsBoth, CanCrashTo, Apply, GrowOp, Apart, Writable, EncodeSuper;
    var now := Apply(base, log);
    NowIsCrashState(base, log);
    var P := (d: Disk) => FitsBoth(g, crc, now, d, s, j.src0, t, j.dst0);
    forall d: Disk, i | 0 <= i < |a| && P(d) ensures P(ApplyOp(d, a[i])) {
      if GrowOps(g, now, a) {
        GrowFits(g, crc, now, d, a[i], s, j.src0, t, j.dst0);
      } else {
        ClearFits(g, crc, now, d, Clear(g, j), s, j.src0, t, j.dst0);
      }
    }
    CrashInvariantFrom(base, log, a, P, e);
  }

  // ----- The first flush -----

  /** The first flush among ops, or none. */
  lemma {:induction false} FirstFlush(ops: seq<Op>) returns (n: nat)
    ensures n <= |ops| && (forall i :: 0 <= i < n ==> ops[i].Write?)
    ensures n < |ops| ==> ops[n].Flush?
  {
    n := 0;
    while n < |ops| && ops[n].Write?
      invariant n <= |ops| && forall i :: 0 <= i < n ==> ops[i].Write?
    {
      n := n + 1;
    }
  }

  /** A new destination is never prepared without a write. */
  lemma PreparedWrites(g: Geometry, crc: Checksum, d: Disk, j: Job, p: seq<Op>)
    requires g.Valid(|d|) && JobReady(g, crc, d, Apply(d, p), j)
    ensures p != []
  {
    hide JobShape, OnlyGrew, At, ChildOk, Decoded, Flat;
    if p == [] {
      ApplyNothing(d);
      DestinationTaken(g, crc, d, j);
    }
  }

  lemma DestinationTaken(g: Geometry, crc: Checksum, d: Disk, j: Job)
    requires g.Valid(|d|) && Carries(g, crc, d, j.dst1) && JobShape(g, j)
    ensures !FreshExtent(g, d, j.dst1.inode)
  {
    hide Decoded, Flat, DisjointExtents;
    assert Allocated(g, d, j.dst1.inode.extentStart);
  }

  /** What the operations of an attempt are as long as none of them is a flush. */
  lemma UnflushedBeginning(
    g: Geometry, crc: Checksum, d: Disk, start: Super, j: Job, f: seq<Op>, p: seq<Op>, q: seq<Op>, rel: seq<Op>,
    done: bool, n: nat)
    requires g.Valid(|d|) && Stretches(g, crc, d, start, j, f, p, q, rel, done)
    requires n <= |f + (p + (q + rel))| && forall i :: 0 <= i < n ==> (f + (p + (q + rel)))[i].Write?
    ensures
      var a := (f + (p + (q + rel)))[..n];
      a == [] || a == [SuperWrite(crc, 1, Clear(g, j))] || GrowOps(g, d, a)
  {
    hide MovePlan, FreeOps, JobReady, EncodeSuper, GrowOp, Precedes, OldExtents;
    var ops := f + (p + (q + rel));
    var a := ops[..n];
    if f != [] {
      var plan := PairPlan(crc, Clear(g, j));
      PairSteps(plan);
      assert ops[1] == f[1] == Flush && ops[0] == f[0];
      if n > 0 {
        assert a == [ops[0]];
      }
    } else {
      ApplyNothing(d);
      PreparedWrites(g, crc, d, j, p);
      assert ops[|p| - 1] == p[|p| - 1];
      assert a == p[..n];
    }
  }

  /**
   A move on top of unflushed writes. Wherever power is cut, either no write of the move was flushed yet and
   both directories read as one of the versions that could have survived before, with nothing announced; or
   both are as the session read them, nothing announced; or mounting can settle the move.
   */
  lemma AttemptOver(
    g: Geometry, crc: Checksum, base: Disk, log: seq<Op>, start: Super, j: Job, ops: seq<Op>, done: bool, k: nat,
    s: Version, t: Version, e: Disk)
    requires g.Valid(|base|) && JobBegun(g, crc, Apply(base, log), j) && AllFit(g, crc, base, log, s, t, j)
    requires AttemptRan(g, crc, Apply(base, log), start, j, ops, done) && QuietCopies(crc, Apply(base, log), start)
    requires j.generation != 0 && j.features <= 3 && j.features % 2 == 1
    requires k <= |ops| && CanCrashTo(base, log + ops[..k], e)
    ensures
      var now := Apply(base, log);
      || FitsBoth(g, crc, now, e, s, j.src0, t, j.dst0)
      || Untouched(g, crc, now, e, j.src0.inode.id, j.dst0.inode.id)
      || Recoverable(g, crc, e, j)
  {
    hide JobBegun, AllFit, QuietCopies, CanCrashTo, Apply, FitsBoth, Untouched, Recoverable, Stretches, Sane, JobShape,
         Consistent, Writable, GrowOps;
    var now := Apply(base, log);
    var f, p, q, rel :| ops == f + (p + (q + rel)) && Stretches(g, crc, now, start, j, f, p, q, rel, done);
    var n := FirstFlush(ops[..k]);
    if n == k {
      UnflushedBeginning(g, crc, now, start, j, f, p, q, rel, done, k);
      assert Writable(Clear(g, j), |base|) by { QuietWritable(g, j); }
      BeginFits(g, crc, base, log, s, t, j, ops[..k], e);
    } else {
      var a, b := ops[..n + 1], ops[n + 1..k];
      assert ops[..k] == a + b && log + ops[..k] == log + a + b;
      SameSurvivors(base, log, a, b, e);
      AttemptCut(g, crc, now, start, j, ops, done, e);
    }
  }

  // ----- A failed move, and mounting again -----

  /** On top of a flushed log, what follows and what is at risk do not depend on the log. */
  lemma FollowOnFlushed(g: Geometry, crc: Checksum, base: Disk, a: seq<Op>, q: seq<Op>, j: Job)
    requires g.Valid(|base|) && JobShape(g, j) && Flushed(a) && AllFollow(g, crc, Apply(base, a), q, j)
    ensures AllFollow(g, crc, base, a + q, j)
    ensures AtRisk(g, crc, base, a + q, j) <==> AtRisk(g, crc, Apply(base, a), q, j)
  {
    hide CanCrashTo, Apply, Follows, At, JobShape, ApartInTable;
    var d := Apply(base, a);
    ApplyConcat(base, a, q);
    forall e: Disk ensures CanCrashTo(base, a + q, e) <==> CanCrashTo(d, q, e) {
      if CanCrashTo(base, a + q, e) {
        CrashAfterFlush(base, a, q, e);
      }
      if CanCrashTo(d, q, e) {
        CrashOnFlushed(base, a, q, e);
      }
    }
  }

  /**
   However far the plan of a move got, on top of whatever writes were unflushed when it began, everything
   that can survive can be settled; a mount on top of it is at risk exactly if the plan stopped between the
   destination's inode write and its flush and the two inodes are in different sectors of the table.
   */
  lemma FailedMoveOver(
    g: Geometry, crc: Checksum, base: Disk, log: seq<Op>, start: Super, j: Job, f: seq<Op>, p: seq<Op>, q: seq<Op>)
    requires g.Valid(|base|) && JobBegun(g, crc, Apply(base, log), j) && QuietCopies(crc, Apply(base, log), start)
    requires Stretches(g, crc, Apply(base, log), start, j, f, p, q, [], false) && JobShape(g, j)
    requires j.generation != 0 && j.features <= 3 && j.features % 2 == 1
    ensures AllFollow(g, crc, base, log + f + p + q, j)
    ensures AtRisk(g, crc, base, log + f + p + q, j) <==> |q| == 5 && ApartInTable(g, j)
  {
    hide JobBegun, QuietCopies, Apply, JobShape, Sane, JobReady, AllFollow, AtRisk, ApartInTable, GrowOps, MovePlan,
         Steps, PairPlan, FreeOps, Untouched, Full, Precedes, FreshExtent;
    var now := Apply(base, log);
    var d1 := Apply(now, f);
    var d2 := Apply(d1, p);
    BegunFeature(g, crc, now, start, j, f);
    PreparedWrites(g, crc, d1, j, p);
    ReadySane(g, crc, d1, d2, j);
    ReadyFacts(g, crc, d1, d2, j);
    ReadyQuiet(g, crc, d1, d2, j);
    ApplyConcat(base, log, f);
    ApplyConcat(base, log + f, p);
    FailedMoveFollows(g, crc, d2, j, q);
    FollowOnFlushed(g, crc, base, log + f + p, q, j);
  }
}
