/**
 One attempt at a move: the two directories as found, their next versions in
 fresh extents, and what a power cut leaves at any moment of it.
 */
module KuroMoveJob {
  import opened Bytes
  import opened KuroDisk
  import opened KuroBitmap
  import opened KuroAlloc
  import opened KuroExtent
  import opened KuroInode
  import opened KuroDirectory
  import opened KuroDirFrame
  import opened KuroVersion
  import opened KuroSuper
  import opened KuroRelease
  import opened KuroPlan
  import opened KuroMoveState
  import opened KuroMoveRecover
  import opened KuroMovePrepare
  import opened KuroMovePlan
  import opened KuroCheck

  // ----- What allocations keep -----

  lemma GrewCarries(g: Geometry, crc: Checksum, d: Disk, e: Disk, v: Version)
    requires g.Valid(|d|) && OnlyGrew(g, d, e) && Carries(g, crc, d, v)
    ensures Carries(g, crc, e, v)
  {
    hide OnlyGrew, InodeAt, Decoded, Flat, SameChildren, InodeExtentStatus;
    GrewKeepsDir(g, d, e, v.inode);
    TableSameChildren(g, crc, d, e);
    if v.inode.size != 0 {
      BitsKeptExtent(g, d, e, v.inode);
    }
    CarriedOn(g, crc, d, e, v);
  }

  lemma GrewSame(g: Geometry, crc: Checksum, d: Disk, e: Disk, id: U64)
    requires g.Valid(|d|) && OnlyGrew(g, d, e)
    ensures InodeAt(g, crc, e, id) == InodeAt(g, crc, d, id)
    ensures SuperAt(crc, e, 0) == SuperAt(crc, d, 0) && SuperAt(crc, e, 1) == SuperAt(crc, d, 1)
  {
    hide InodeAt, DecodeSuper;
    GrewTable(g, d, e);
    TableSameInode(g, crc, d, e, id);
  }

  lemma GrewOwns(g: Geometry, d: Disk, e: Disk, i: Inode)
    requires g.Valid(|d|) && OnlyGrew(g, d, e) && Owns(g, d, i)
    ensures Owns(g, e, i)
  {
    hide SectorBit;
    forall y | i.extentStart <= y < i.extentStart + i.extentBlocks && i.extentBlocks != 0 ensures Allocated(g, e, y) {
      assert Allocated(g, d, y);
      BitmapIndex(g, y);
    }
  }

  lemma GrewLength(g: Geometry, d: Disk, e: Disk)
    requires OnlyGrew(g, d, e)
    ensures |e| == |d|
  {
  }

  lemma GrownBit(g: Geometry, d0: Disk, d: Disk, block: nat, z: nat)
    requires g.Valid(|d0|) && OnlyGrew(g, d0, d) && g.InBitmap(block) && SectorBit(d0[block], z)
    ensures SectorBit(d[block], z)
  {
    hide Bit;
    var y := (block - g.bitmapStart) * 4096 + z % 4096;
    assert y / 4096 == block - g.bitmapStart && y % 4096 == z % 4096;
    assert Allocated(g, d0, y);
    assert Allocated(g, d, y);
  }

  /** What was grown on top of a grown disk has grown from the first. */
  lemma GrowOnGrown(g: Geometry, d0: Disk, d: Disk, ops: seq<Op>)
    requires g.Valid(|d0|) && OnlyGrew(g, d0, d) && GrowOps(g, d, ops)
    ensures GrowOps(g, d0, ops)
  {
    hide SectorBit;
    forall i | 0 <= i < |ops| ensures GrowOp(g, d0, ops[i]) {
      var op := ops[i];
      assert GrowOp(g, d, op);
      if op.Write? && g.InBitmap(op.block) {
        forall z: nat | SectorBit(d0[op.block], z) ensures SectorBit(op.data, z) {
          GrownBit(g, d0, d, op.block, z);
        }
      } else if op.Write? {
        BitmapIndex(g, op.block);
      }
    }
  }

  // ----- Jobs -----

  /** The job before its new versions exist. */
  ghost predicate JobBegun(g: Geometry, crc: Checksum, d: Disk, j: Job)
    requires g.Valid(|d|)
  {
    && At(g, crc, d, j, false, false) && ChildOk(g, crc, d, j)
    && Carries(g, crc, d, j.src0) && Carries(g, crc, d, j.dst0)
    && j.src0.inode.id != j.dst0.inode.id && DisjointExtents(j.src0.inode, j.dst0.inode)
    && Validated(g, d, j.src0.inode) && Validated(g, d, j.dst0.inode)
    && FlagsAllowed(j.src0.inode.flags, j.features) && FlagsAllowed(j.dst0.inode.flags, j.features)
    && j.src0.inode.revision < UINT32_MAX && j.dst0.inode.revision < UINT32_MAX
  }

  /** Both directories of the job are where they were, and both new versions are ready beside them. */
  ghost predicate JobReady(g: Geometry, crc: Checksum, d0: Disk, d: Disk, j: Job)
    requires g.Valid(|d0|)
  {
    && |d| == |d0| && OnlyGrew(g, d0, d) && JobShape(g, j) && EmptyAtZero(j.src1.inode)
    && FreshExtent(g, d0, j.src1.inode) && FreshExtent(g, d0, j.dst1.inode)
    && TakenUp(g, d0, d, NewExtents(IntentOf(j))) && Full(g, crc, d, j, false, false)
  }

  /** The inode's blocks were free. */
  ghost predicate FreshExtent(g: Geometry, d: Disk, i: Inode) {
    i.extentBlocks != 0 ==> FreeRun(g, d, i.extentStart, i.extentBlocks)
  }

  lemma BegunFacts(g: Geometry, crc: Checksum, d: Disk, j: Job)
    requires g.Valid(|d|) && JobBegun(g, crc, d, j)
    ensures Carries(g, crc, d, j.src0) && Carries(g, crc, d, j.dst0)
    ensures InodeAt(g, crc, d, j.src0.inode.id) == Success(j.src0.inode)
    ensures InodeAt(g, crc, d, j.dst0.inode.id) == Success(j.dst0.inode)
    ensures j.src0.inode.revision < UINT32_MAX && j.dst0.inode.revision < UINT32_MAX
    ensures FlagsAllowed(j.src0.inode.flags, j.features) && FlagsAllowed(j.dst0.inode.flags, j.features)
  {
    hide Carries, InodeAt, Validated;
  }

  lemma BegunSame(g: Geometry, crc: Checksum, d: Disk, j: Job, v: Version, w: Version)
    requires g.Valid(|d|) && JobBegun(g, crc, d, j)
    ensures JobBegun(g, crc, d, j.(src1 := v, dst1 := w))
  {
    hide Carries, InodeAt, Validated;
  }

  lemma BegunRenamed(g: Geometry, crc: Checksum, d: Disk, k: Job, j: Job)
    requires g.Valid(|d|) && JobBegun(g, crc, d, k)
    requires j == k.(generation := j.generation, features := j.features) && j.features / 2 == k.features / 2
    ensures JobBegun(g, crc, d, j)
  {
    hide InodeAt, Carries, Validated;
  }

  lemma BegunChild(g: Geometry, crc: Checksum, d: Disk, j: Job, entry: Entry)
    requires g.Valid(|d|) && JobBegun(g, crc, d, j)
    requires entry.inodeId == j.childId && entry.generation == j.childGeneration && entry.kind == j.childKind
    ensures ChildMatches(InodeAt(g, crc, d, entry.inodeId), entry)
  {
    hide InodeAt, Carries, Validated;
  }

  lemma ReadyFacts(g: Geometry, crc: Checksum, d0: Disk, d: Disk, j: Job)
    requires g.Valid(|d0|) && JobReady(g, crc, d0, d, j)
    ensures |d| == |d0| && JobShape(g, j) && Full(g, crc, d, j, false, false)
    ensures FreshExtent(g, d0, j.src1.inode) && FreshExtent(g, d0, j.dst1.inode)
    ensures TakenUp(g, d0, d, NewExtents(IntentOf(j)))
  {
  }

  // ----- Next versions in extents of their own -----

  /** A fresh extent does not meet one that was allocated. */
  lemma FreshApart(g: Geometry, d: Disk, i: Inode, k: Inode)
    requires Owns(g, d, i) && (k.extentBlocks != 0 ==> FreeRun(g, d, k.extentStart, k.extentBlocks))
    ensures DisjointExtents(i, k)
  {
    hide SectorBit;
    if i.extentBlocks != 0 && k.extentBlocks != 0 {
      var y := if i.extentStart < k.extentStart then k.extentStart else i.extentStart;
      assert i.extentStart <= y < i.extentStart + i.extentBlocks ==> Allocated(g, d, y);
      assert k.extentStart <= y < k.extentStart + k.extentBlocks ==> !Allocated(g, d, y);
    }
  }

  lemma EmptyApart(i: Inode, k: Inode)
    requires i.extentBlocks == 0
    ensures DisjointExtents(i, k)
  {
  }

  lemma CarriedOwns(g: Geometry, crc: Checksum, d: Disk, v: Version)
    requires g.Valid(|d|) && Carries(g, crc, d, v) && v.inode.size != 0
    ensures Owns(g, d, v.inode) && v.inode.size <= v.inode.extentBlocks * 512
  {
  }

  /** Two directories as found, with the two versions prepared for them, make a well-formed job. */
  lemma PreparedShape(g: Geometry, crc: Checksum, d0: Disk, d1: Disk, d2: Disk, j: Job, s1: Inode, t1: Inode)
    requires g.Valid(|d0|) && |d1| == |d0| && |d2| == |d0|
    requires InodeAt(g, crc, d0, j.src0.inode.id) == Success(j.src0.inode)
    requires InodeAt(g, crc, d0, j.dst0.inode.id) == Success(j.dst0.inode)
    requires j.src0.inode.kind == DIRECTORY && j.dst0.inode.kind == DIRECTORY && j.src0.inode.id != j.dst0.inode.id
    requires Validated(g, d0, j.src0.inode) && Validated(g, d0, j.dst0.inode)
    requires DisjointExtents(j.src0.inode, j.dst0.inode)
    requires NextVersion(g, crc, d0, d1, j.src0.inode, s1, j.src1) && s1.size + 128 == j.src0.inode.size
    requires NextVersion(g, crc, d1, d2, j.dst0.inode, t1, j.dst1) && t1.size == j.dst0.inode.size + 128
    ensures JobShape(g, j) && EmptyAtZero(j.src1.inode) && Owns(g, d2, j.dst0.inode)
  {
    hide InodeAt, Carries, OnlyGrew, BitsAdded, Allocated, DisjointExtents;
    var s0, t0 := j.src0.inode, j.dst0.inode;
    assert Owns(g, d0, s0) && Owns(g, d0, t0);
    hide Owns;
    GrewOwns(g, d0, d1, s0);
    GrewOwns(g, d0, d1, t0);
    GrewOwns(g, d1, d2, t0);
    FreshApart(g, d0, s0, j.src1.inode);
    FreshApart(g, d0, t0, j.src1.inode);
    FreshApart(g, d1, s0, j.dst1.inode);
    FreshApart(g, d1, t0, j.dst1.inode);
    if s1.size != 0 {
      CarriedOwns(g, crc, d1, j.src1);
      FreshApart(g, d1, j.src1.inode, j.dst1.inode);
    } else {
      EmptyApart(j.src1.inode, j.dst1.inode);
    }
  }

  lemma PreparedJob(g: Geometry, crc: Checksum, d0: Disk, d1: Disk, d2: Disk, j: Job, s1: Inode, t1: Inode)
    requires g.Valid(|d0|) && |d1| == |d0| && |d2| == |d0| && JobBegun(g, crc, d0, j) && OnlyGrew(g, d0, d2)
    requires NextVersion(g, crc, d0, d1, j.src0.inode, s1, j.src1) && s1.size + 128 == j.src0.inode.size
    requires NextVersion(g, crc, d1, d2, j.dst0.inode, t1, j.dst1) && t1.size == j.dst0.inode.size + 128
    ensures JobReady(g, crc, d0, d2, j)
  {
    hide OnlyGrew, BitsAdded, InodeAt, FirstFit, Flat, Decoded, DirSound, Owns, JobShape, Validated, FreeRun;
    PreparedShape(g, crc, d0, d1, d2, j, s1, t1);
    FreshAgain(g, crc, d0, d1, j.src0.inode, s1, j.src1);
    FreshAgain(g, crc, d1, d2, j.dst0.inode, t1, j.dst1);
    FreshBefore(g, d0, d1, j.dst1.inode);
    BothAdded(g, d0, d1, d2, j);
    GrewSame(g, crc, d0, d2, j.src0.inode.id);
    GrewSame(g, crc, d0, d2, j.dst0.inode.id);
    GrewSame(g, crc, d0, d2, j.childId);
    GrewCarries(g, crc, d0, d2, j.src0);
    GrewCarries(g, crc, d0, d2, j.dst0);
    GrewCarries(g, crc, d1, d2, j.src1);
  }

  lemma NextFacts(g: Geometry, crc: Checksum, d0: Disk, d: Disk, current: Inode, candidate: Inode, after: Version)
    requires g.Valid(|d0|) && NextVersion(g, crc, d0, d, current, candidate, after)
    ensures current.revision < UINT32_MAX && after.inode == candidate.(revision := current.revision + 1)
    ensures candidate.revision == current.revision
  {
  }

  /** If the second preparation took no block, the first one's are still the only new ones. */
  lemma FirstStays(
    g: Geometry, crc: Checksum, d0: Disk, d1: Disk, d2: Disk, current: Inode, candidate: Inode, after: Version)
    requires g.Valid(|d0|) && |d1| == |d0| && NextVersion(g, crc, d0, d1, current, candidate, after)
    ensures candidate.extentBlocks != 0 ==> candidate.extentBlocks * 512 <= UINT64_MAX
    ensures OnlyGrew(g, d1, d2) ==>
      candidate.extentBlocks == 0 || ExtentStatus(g, d2, candidate.extentStart, candidate.extentBlocks) == Ok
    ensures SameBits(g, d1, d2) ==>
      BitsAdded(g, d0, d2, candidate.extentStart, candidate.extentStart + candidate.extentBlocks)
  {
    hide Allocated, FirstFit, OnlyGrew, Decoded, Flat, InodeAt;
    if OnlyGrew(g, d1, d2) && candidate.extentBlocks != 0 {
      CarriedOwns(g, crc, d1, after);
      GrewOwns(g, d1, d2, after.inode);
    }
  }

  lemma FreshAgain(g: Geometry, crc: Checksum, d0: Disk, d: Disk, current: Inode, candidate: Inode, after: Version)
    requires g.Valid(|d0|) && NextVersion(g, crc, d0, d, current, candidate, after)
    ensures candidate.extentBlocks != 0 ==> FreeRun(g, d0, candidate.extentStart, candidate.extentBlocks)
  {
  }

  lemma BothAdded(g: Geometry, d0: Disk, d1: Disk, d2: Disk, j: Job)
    requires BitsAdded(g, d0, d1, j.src1.inode.extentStart, j.src1.inode.extentStart + j.src1.inode.extentBlocks)
    requires BitsAdded(g, d1, d2, j.dst1.inode.extentStart, j.dst1.inode.extentStart + j.dst1.inode.extentBlocks)
    ensures TakenUp(g, d0, d2, NewExtents(IntentOf(j)))
  {
    hide Allocated;
  }

  /** What is free in a disk that only grew was free before. */
  lemma FreshBefore(g: Geometry, d0: Disk, d: Disk, i: Inode)
    requires g.Valid(|d0|) && OnlyGrew(g, d0, d) && FreshExtent(g, d, i)
    ensures FreshExtent(g, d0, i)
  {
    hide SectorBit;
    forall y | i.extentStart <= y < i.extentStart + i.extentBlocks && i.extentBlocks != 0
      ensures !Allocated(g, d0, y)
    {
      assert !Allocated(g, d, y);
      BitmapIndex(g, y);
    }
  }

  lemma ListSize(g: Geometry, crc: Checksum, d: Disk, v: Version)
    requires g.Valid(|d|) && Carries(g, crc, d, v)
    ensures |v.list| * 128 == v.inode.size
  {
    hide Decoded, DirSound;
    DecodedLength(g, crc, d, v.image);
  }

  // ----- Room -----

  /** The first fit for a blocks at s leaves a free run of b blocks at t. */
  ghost predicate Beside(g: Geometry, d: Disk, s: nat, a: nat, t: nat, b: nat) {
    (a == 0 || FirstFit(g, d, s, a)) && FreeRun(g, d, t, b) && (a == 0 || s + a <= t || t + b <= s)
  }

  /** Room for the source with one entry less and, beside the extent that takes, for the destination with one more. */
  ghost predicate RoomForBoth(g: Geometry, d: Disk, sourceSize: nat, destinationSize: nat) {
    var a, b := DivideRoundUp(sourceSize, 512), DivideRoundUp(destinationSize, 512);
    && a * 512 <= UINT64_MAX && b * 512 <= UINT64_MAX
    && exists s: nat, t: nat :: Beside(g, d, s, a, t, b)
  }

  ghost predicate RoomToMove(g: Geometry, d: Disk, source: Inode, destination: Inode) {
    && source.size >= 128 && destination.size + 128 <= UINT64_MAX
    && RoomForBoth(g, d, source.size - 128, destination.size + 128)
  }

  lemma FirstFitUnique(g: Geometry, d: Disk, s: nat, t: nat, count: nat)
    requires FirstFit(g, d, s, count) && FirstFit(g, d, t, count)
    ensures s == t
  {
    hide FreeRun;
  }

  lemma FirstRoom(g: Geometry, d: Disk, sourceSize: nat, destinationSize: nat)
    ensures RoomForBoth(g, d, sourceSize, destinationSize) ==> Room(g, d, sourceSize)
  {
    hide FreeRun, DivideRoundUp;
  }

  /** A free run beside the blocks just taken is still free. */
  lemma FreeStays(g: Geometry, d0: Disk, d: Disk, first: nat, count: nat, t: nat, b: nat)
    requires g.Valid(|d0|) && FreeRun(g, d0, t, b) && BitsAdded(g, d0, d, first, first + count)
    requires count == 0 || first + count <= t || t + b <= first
    ensures FreeRun(g, d, t, b)
  {
    hide Allocated;
    forall y | t <= y < t + b ensures !Allocated(g, d, y) {
      BitmapIndex(g, y);
    }
  }

  lemma SecondRoom(
    g: Geometry, crc: Checksum, d0: Disk, d: Disk, current: Inode, candidate: Inode, after: Version, size: nat)
    requires g.Valid(|d0|) && |d| == |d0| && NextVersion(g, crc, d0, d, current, candidate, after)
    ensures RoomForBoth(g, d0, candidate.size, size) ==> Room(g, d, size)
  {
    hide Carries, OnlyGrew, DivideRoundUp, FirstFit, FreeRun, BitsAdded;
    var a, b := DivideRoundUp(candidate.size, 512), DivideRoundUp(size, 512);
    if RoomForBoth(g, d0, candidate.size, size) {
      var s: nat, t: nat :| Beside(g, d0, s, a, t, b);
      if a != 0 {
        FirstFitUnique(g, d0, s, candidate.extentStart, a);
      }
      FreeStays(g, d0, d, candidate.extentStart, candidate.extentBlocks, t, b);
    }
  }

  lemma SameFree(g: Geometry, d: Disk, e: Disk, first: nat, count: nat)
    requires forall y: nat :: Allocated(g, e, y) <==> Allocated(g, d, y)
    ensures FreeRun(g, d, first, count) <==> FreeRun(g, e, first, count)
  {
    hide SectorBit;
  }

  lemma SameRoom(g: Geometry, d: Disk, e: Disk, a: nat, b: nat)
    requires forall y: nat :: Allocated(g, e, y) <==> Allocated(g, d, y)
    ensures RoomForBoth(g, d, a, b) ==> RoomForBoth(g, e, a, b)
  {
    hide FreeRun, DivideRoundUp;
    forall t: nat, n: nat ensures FreeRun(g, d, t, n) <==> FreeRun(g, e, t, n) {
      SameFree(g, d, e, t, n);
    }
    if RoomForBoth(g, d, a, b) {
      var m, n := DivideRoundUp(a, 512), DivideRoundUp(b, 512);
      var s: nat, t: nat :| Beside(g, d, s, m, t, n);
      assert Beside(g, e, s, m, t, n);
    }
  }

  /** Superblock writes do not take room. */
  lemma FeatureRoom(g: Geometry, crc: Checksum, d: Disk, x: Super, f: seq<Op>, a: nat, b: nat)
    requires g.Valid(|d|) && (f == [] || f == Steps(PairPlan(crc, x)))
    ensures RoomForBoth(g, d, a, b) ==> RoomForBoth(g, Apply(d, f), a, b)
  {
    hide RoomForBoth, EncodeSuper, Apply;
    var e := Apply(d, f);
    assert forall y: nat :: Allocated(g, e, y) <==> Allocated(g, d, y) by {
      if f == [] {
        ApplyNothing(d);
      } else {
        var v, w := SuperWrite(crc, 1, x), SuperWrite(crc, 0, x);
        StepsApply(d, PairPlan(crc, x));
        assert [v, w][..2] == [v, w];
        TwoStates(d, v, w, 2);
      }
    }
    SameRoom(g, d, e, a, b);
  }

  lemma StillFits(g: Geometry, crc: Checksum, d: Disk, e: Disk, j: Job, f: seq<Op>, source: Inode, destination: Inode)
    requires g.Valid(|d|) && (f == [] || f == Steps(PairPlan(crc, Clear(g, j)))) && e == Apply(d, f)
    ensures RoomToMove(g, d, source, destination) ==> RoomToMove(g, e, source, destination)
  {
    hide RoomForBoth, Apply, Steps, PairPlan;
    if RoomToMove(g, d, source, destination) {
      FeatureRoom(g, crc, d, Clear(g, j), f, source.size - 128, destination.size + 128);
    }
  }

  // ----- Preparing both directories -----

  lemma SettledJoin(a: seq<Op>, b: seq<Op>)
    requires Settled(a) && Settled(b)
    ensures Settled(a + b)
  {
  }

  /** Both new versions in fresh extents, or neither. */
  method PrepareBoth(fs: FileSystem, source: Inode, index: U64, destination: Inode, entry: Entry, ghost k: Job)
    returns (status: Status, source': Inode, destination': Inode, ghost j: Job)
    requires fs.Ready() && JobBegun(fs.geometry, fs.checksum, fs.device.sectors, k)
    requires source == k.src0.inode && destination == k.dst0.inode && index < |k.src0.list|
    requires EntryAcceptable(entry)
    requires ChildMatches(InodeAt(fs.geometry, fs.checksum, fs.device.sectors, entry.inodeId), entry)
    modifies fs.device
    ensures old(fs.device.log) <= fs.device.log
    ensures fs.device.sectors == Apply(old(fs.device.sectors), fs.device.Since(|old(fs.device.log)|))
    ensures GrowOps(fs.geometry, old(fs.device.sectors), fs.device.Since(|old(fs.device.log)|))
    ensures j == k.(src1 := j.src1, dst1 := j.dst1)
    ensures status == Ok ==>
      && Settled(fs.device.Since(|old(fs.device.log)|))
      && JobReady(fs.geometry, fs.checksum, old(fs.device.sectors), fs.device.sectors, j)
      && source' == j.src1.inode.(revision := source.revision)
      && destination' == j.dst1.inode.(revision := destination.revision)
      && j.src1.list == WithoutEntry(k.src0.list, index) && j.dst1.list == k.dst0.list + [entry]
    ensures fs.device.reliable && fs.mounted && destination.size + 128 <= UINT64_MAX ==>
      RoomForBoth(fs.geometry, old(fs.device.sectors), source.size - 128, destination.size + 128) ==> status == Ok
    ensures status !in {Ok, BlockDeviceError, ArithmeticOverflow} ==>
      SameBits(fs.geometry, old(fs.device.sectors), fs.device.sectors)
  {
    hide Apply, GrowOps, NextVersion, OnlyGrew, InodeAt, Carries, EntryAcceptable, RoomForBoth, Room, JobReady,
         WithoutEntry, JobBegun, FreeRun, DivideRoundUp, SameBits, BitsAdded;
    var g := fs.geometry;
    ghost var d0, n, crc := fs.device.sectors, |fs.device.log|, fs.checksum;
    j, destination' := k, destination;
    BegunFacts(g, crc, d0, k);
    ListSize(g, crc, d0, k.src0);
    FirstRoom(g, d0, source.size - 128, destination.size + 128);
    ghost var w: Version, x: Version;
    status, source', w := PrepareWithout(fs, source, index, k.src0);
    if status != Ok {
      return;
    }
    ghost var a, n1, d1 := fs.device.Since(n), |fs.device.log|, fs.device.sectors;
    GrowApply(g, d0, a);
    SecondRoom(g, crc, d0, d1, source, source', w, destination.size + 128);
    GrewSame(g, crc, d0, d1, destination.id);
    GrewSame(g, crc, d0, d1, entry.inodeId);
    GrewCarries(g, crc, d0, d1, k.dst0);
    status, destination', x := PrepareWith(fs, destination, entry, k.dst0);
    ghost var b, d2 := fs.device.Since(n1), fs.device.sectors;
    Sequence(d0, fs.device.log, n, n1);
    assert fs.device.log[n..n1] == a;
    GrowOnGrown(g, d0, d1, b);
    GrowJoin(g, d0, a, b);
    GrowApply(g, d0, a + b);
    if status != Ok {
      FreshAgain(g, crc, d0, d1, source, source', w);
      GrowApply(g, d1, b);
      FirstStays(g, crc, d0, d1, d2, source, source', w);
      status := GiveBack(fs, d0, n, source'.extentStart, source'.extentBlocks, status);
      return;
    }
    j := k.(src1 := w, dst1 := x);
    BegunSame(g, crc, d0, k, w, x);
    SettledJoin(a, b);
    NextFacts(g, crc, d0, d1, source, source', w);
    NextFacts(g, crc, d1, d2, destination, destination', x);
    PreparedJob(g, crc, d0, d1, d2, j, source', destination');
  }

  // ----- Power cuts before the announcement -----

  predicate NoMove(crc: Checksum, d: Disk) {
    && (SuperAt(crc, d, 0).Success? ==> SuperAt(crc, d, 0).value.move.None?)
    && (SuperAt(crc, d, 1).Success? ==> SuperAt(crc, d, 1).value.move.None?)
  }

  /** Both directories are as in d0, and mounting finds no move to recover if it would have found none then. */
  ghost predicate Untouched(g: Geometry, crc: Checksum, d0: Disk, d: Disk, a: U64, b: U64)
    requires g.Valid(|d0|)
  {
    && |d| == |d0|
    && InodeAt(g, crc, d, a) == InodeAt(g, crc, d0, a) && InodeAt(g, crc, d, b) == InodeAt(g, crc, d0, b)
    && View(g, crc, d, a) == View(g, crc, d0, a) && View(g, crc, d, b) == View(g, crc, d0, b)
    && (NoMove(crc, d0) ==> NoMove(crc, d))
  }

  ghost predicate CutUntouched(g: Geometry, crc: Checksum, d0: Disk, ops: seq<Op>, a: U64, b: U64)
    requires g.Valid(|d0|)
  {
    forall d: Disk :: CrashPoint(d0, ops, d) ==> Untouched(g, crc, d0, d, a, b)
  }

  lemma NothingTouched(g: Geometry, crc: Checksum, d: Disk, a: U64, b: U64)
    requires g.Valid(|d|)
    ensures Untouched(g, crc, d, d, a, b) && CutUntouched(g, crc, d, [], a, b)
  {
    hide InodeAt, View, SuperAt;
    forall e: Disk | CrashPoint(d, [], e) ensures e == d {
      var P := (x: Disk) => x == d;
      CrashPointInvariant(d, [], P, e);
    }
  }

  lemma CarriedUntouched(g: Geometry, crc: Checksum, d0: Disk, d: Disk, v: Version, w: Version)
    requires g.Valid(|d0|) && |d| == |d0|
    requires Carries(g, crc, d0, v) && Carries(g, crc, d, v) && Carries(g, crc, d0, w) && Carries(g, crc, d, w)
    requires InodeAt(g, crc, d0, v.inode.id) == Success(v.inode) && InodeAt(g, crc, d, v.inode.id) == Success(v.inode)
    requires InodeAt(g, crc, d0, w.inode.id) == Success(w.inode) && InodeAt(g, crc, d, w.inode.id) == Success(w.inode)
    requires NoMove(crc, d0) ==> NoMove(crc, d)
    ensures Untouched(g, crc, d0, d, v.inode.id, w.inode.id)
  {
    hide InodeAt, View, SuperAt, Carries;
    CarriedView(g, crc, d0, v);
    CarriedView(g, crc, d, v);
    CarriedView(g, crc, d0, w);
    CarriedView(g, crc, d, w);
  }

  lemma UntouchedTrans(g: Geometry, crc: Checksum, d0: Disk, d1: Disk, d2: Disk, a: U64, b: U64)
    requires g.Valid(|d0|) && Untouched(g, crc, d0, d1, a, b) && Untouched(g, crc, d1, d2, a, b)
    ensures Untouched(g, crc, d0, d2, a, b)
  {
    hide InodeAt, View, NoMove;
  }

  lemma GrewUntouched(g: Geometry, crc: Checksum, d0: Disk, d: Disk, j: Job)
    requires g.Valid(|d0|) && JobBegun(g, crc, d0, j) && OnlyGrew(g, d0, d) && |d| == |d0|
    ensures Untouched(g, crc, d0, d, j.src0.inode.id, j.dst0.inode.id)
  {
    hide JobBegun, OnlyGrew, InodeAt, Carries, SuperAt, Untouched;
    BegunFacts(g, crc, d0, j);
    GrewSame(g, crc, d0, d, j.src0.inode.id);
    GrewSame(g, crc, d0, d, j.dst0.inode.id);
    GrewCarries(g, crc, d0, d, j.src0);
    GrewCarries(g, crc, d0, d, j.dst0);
    CarriedUntouched(g, crc, d0, d, j.src0, j.dst0);
  }

  lemma LowWriteStatus(g: Geometry, d: Disk, op: Op, i: Inode)
    requires g.Valid(|d|) && op.Write? && op.block < g.bitmapStart && InodeExtentStatus(g, d, i) == Ok
    ensures InodeExtentStatus(g, ApplyOp(d, op), i) == Ok
  {
    hide AllAllocated;
    LowWriteOwns(g, d, op, i);
  }

  /** Writing quiet superblocks leaves a job that has only begun as it is. */
  lemma QuietWriteBegun(g: Geometry, crc: Checksum, d: Disk, block: nat, x: Super, j: Job)
    requires g.Valid(|d|) && JobBegun(g, crc, d, j) && block < 2 && Writable(x, |d|) && x.move.None?
    ensures
      var d' := ApplyOp(d, SuperWrite(crc, block, x));
      && |d'| == |d| && JobBegun(g, crc, d', j) && (NoMove(crc, d) ==> NoMove(crc, d'))
      && Untouched(g, crc, d, d', j.src0.inode.id, j.dst0.inode.id)
  {
    hide InodeAt, Carries, SuperAt, Writable, EncodeSuper, Untouched, InodeExtentStatus;
    var d' := ApplyOp(d, SuperWrite(crc, block, x));
    SuperWriteCopies(g, crc, d, block, x);
    SuperWriteTable(g, d, block, EncodeSuper(crc, x));
    TableSameInode(g, crc, d, d', j.src0.inode.id);
    TableSameInode(g, crc, d, d', j.dst0.inode.id);
    TableSameInode(g, crc, d, d', j.childId);
    SuperWriteCarries(g, crc, d, block, EncodeSuper(crc, x), j.src0);
    SuperWriteCarries(g, crc, d, block, EncodeSuper(crc, x), j.dst0);
    LowWriteStatus(g, d, SuperWrite(crc, block, x), j.src0.inode);
    LowWriteStatus(g, d, SuperWrite(crc, block, x), j.dst0.inode);
    CarriedUntouched(g, crc, d, d', j.src0, j.dst0);
  }

  lemma FeatureStates(g: Geometry, crc: Checksum, d: Disk, x: Super, j: Job, i: nat)
    requires g.Valid(|d|) && JobBegun(g, crc, d, j) && Writable(x, |d|) && x.move.None? && i <= 2
    ensures
      var e := Apply(d, PairPlan(crc, x)[..i]);
      && |e| == |d| && JobBegun(g, crc, e, j) && Untouched(g, crc, d, e, j.src0.inode.id, j.dst0.inode.id)
      && (i == 2 ==> SuperAt(crc, e, 0) == Success(x) && SuperAt(crc, e, 1) == Success(x))
  {
    hide JobBegun, Untouched, Writable, EncodeSuper, Apply, SuperAt;
    var v, w := SuperWrite(crc, 1, x), SuperWrite(crc, 0, x);
    var d1 := ApplyOp(d, v);
    QuietWriteBegun(g, crc, d, 1, x, j);
    QuietWriteBegun(g, crc, d1, 0, x, j);
    SuperWriteCopies(g, crc, d, 1, x);
    SuperWriteCopies(g, crc, d1, 0, x);
    UntouchedTrans(g, crc, d, d1, ApplyOp(d1, w), j.src0.inode.id, j.dst0.inode.id);
    NothingTouched(g, crc, d, j.src0.inode.id, j.dst0.inode.id);
    TwoStates(d, v, w, i);
  }

  lemma QuietWritable(g: Geometry, j: Job)
    requires g.Valid(g.totalBlocks) && j.generation != 0 && j.features <= 3
    ensures Writable(Clear(g, j), g.totalBlocks)
  {
  }

  /** The feature upgrade, complete or not needed. */
  lemma BegunFeature(g: Geometry, crc: Checksum, d0: Disk, start: Super, j: Job, f: seq<Op>)
    requires g.Valid(|d0|) && JobBegun(g, crc, d0, j) && j.generation != 0 && j.features <= 3
    requires if f == [] then start == Clear(g, j) else f == Steps(PairPlan(crc, Clear(g, j)))
    ensures
      var d1 := Apply(d0, f);
      && |d1| == |d0| && Settled(f) && JobBegun(g, crc, d1, j)
      && Untouched(g, crc, d0, d1, j.src0.inode.id, j.dst0.inode.id)
      && (QuietCopies(crc, d0, start) ==> QuietCopies(crc, d1, Clear(g, j)))
  {
    hide JobBegun, Untouched, SuperAt, Apply, PairPlan;
    if f == [] {
      ApplyNothing(d0);
      NothingTouched(g, crc, d0, j.src0.inode.id, j.dst0.inode.id);
    } else {
      var plan := PairPlan(crc, Clear(g, j));
      QuietWritable(g, j);
      FeatureStates(g, crc, d0, Clear(g, j), j, 2);
      assert plan[..2] == plan;
      StepsApply(d0, plan);
      StepsSettled(plan);
    }
  }

  lemma FeatureCut(g: Geometry, crc: Checksum, d0: Disk, j: Job, f: seq<Op>, e: Disk)
    requires g.Valid(|d0|) && JobBegun(g, crc, d0, j) && j.generation != 0 && j.features <= 3
    requires f <= Steps(PairPlan(crc, Clear(g, j))) && CrashPoint(d0, f, e)
    ensures Untouched(g, crc, d0, e, j.src0.inode.id, j.dst0.inode.id)
  {
    hide JobBegun, Untouched, SuperAt, Apply, CrashPoint, EncodeSuper;
    var plan := PairPlan(crc, Clear(g, j));
    QuietWritable(g, j);
    var i := PlanCrashPoint(d0, plan, f, e);
    FeatureStates(g, crc, d0, Clear(g, j), j, i);
  }

  /** A preparation that failed, after a feature upgrade or without one, has changed neither directory. */
  lemma UnpreparedCut(g: Geometry, crc: Checksum, d0: Disk, start: Super, j: Job, f: seq<Op>, p: seq<Op>)
    requires g.Valid(|d0|) && JobBegun(g, crc, d0, j) && j.generation != 0 && j.features <= 3
    requires if f == [] then start == Clear(g, j) else f == Steps(PairPlan(crc, Clear(g, j)))
    requires GrowOps(g, Apply(d0, f), p)
    ensures CutUntouched(g, crc, d0, f + p, j.src0.inode.id, j.dst0.inode.id)
  {
    hide JobBegun, CrashPoint, Apply, Untouched, QuietCopies, GrowOps, Steps, PairPlan, OnlyGrew;
    var d1 := Apply(d0, f);
    BegunFeature(g, crc, d0, start, j, f);
    forall e: Disk | CrashPoint(d0, f + p, e) ensures Untouched(g, crc, d0, e, j.src0.inode.id, j.dst0.inode.id) {
      CrashPointSplit(d0, f, p, e);
      if CrashPoint(d0, f, e) {
        FeatureCut(g, crc, d0, j, f, e);
      } else {
        GrowCrash(g, d1, p, e);
        GrewLength(g, d1, e);
        GrewUntouched(g, crc, d1, e, j);
        UntouchedTrans(g, crc, d0, d1, e, j.src0.inode.id, j.dst0.inode.id);
      }
    }
  }

  lemma UpgradeCut(g: Geometry, crc: Checksum, d0: Disk, j: Job, f: seq<Op>)
    requires g.Valid(|d0|) && JobBegun(g, crc, d0, j) && j.generation != 0 && j.features <= 3
    requires f <= Steps(PairPlan(crc, Clear(g, j)))
    ensures CutUntouched(g, crc, d0, f, j.src0.inode.id, j.dst0.inode.id)
  {
    hide JobBegun, CrashPoint, Untouched, Steps, PairPlan;
    forall e: Disk | CrashPoint(d0, f, e) ensures Untouched(g, crc, d0, e, j.src0.inode.id, j.dst0.inode.id) {
      FeatureCut(g, crc, d0, j, f, e);
    }
  }

  // ----- One attempt -----

  lemma ChildIsAcceptable(g: Geometry, crc: Checksum, d: Disk, j: Job)
    requires g.Valid(|d|) && ChildOk(g, crc, d, j)
    ensures 0 < j.childId <= g.inodeCount && j.childGeneration != 0
    ensures j.childKind == REGULAR || j.childKind == DIRECTORY
  {
  }

  /** A job that is ready can be announced so that recovery will understand it. */
  lemma ReadySane(g: Geometry, crc: Checksum, d0: Disk, d: Disk, j: Job)
    requires g.Valid(|d0|) && JobBegun(g, crc, d0, j) && JobReady(g, crc, d0, d, j)
    requires j.generation != 0 && j.features <= 3 && j.features % 2 == 1
    ensures Sane(g, j)
  {
    hide InodeAt, Decoded, Flat, OnlyGrew, AllAllocated, DisjointExtents;
    CarriedOwns(g, crc, d, j.dst1);
    if j.src1.inode.size != 0 {
      CarriedOwns(g, crc, d, j.src1);
    }
    ChildIsAcceptable(g, crc, d, j);
  }

  /** An older generation of the same volume, with no move announced. */
  predicate Precedes(start: Super, next: Super) {
    start.geometry == next.geometry && start.move.None? && start.generation < next.generation
  }

  /** The four stretches of an attempt: feature upgrade, preparation, the plan, release of the old extents. */
  ghost predicate Stretches(
    g: Geometry, crc: Checksum, d0: Disk, start: Super, j: Job, f: seq<Op>, p: seq<Op>, q: seq<Op>, rel: seq<Op>,
    done: bool)
    requires g.Valid(|d0|)
  {
    var d1 := Apply(d0, f);
    var d2 := Apply(d1, p);
    && (if f == [] then start == Clear(g, j)
        else f == Steps(PairPlan(crc, Clear(g, j))) && Precedes(start, Clear(g, j)))
    && GrowOps(g, d1, p) && Settled(p) && JobReady(g, crc, d1, d2, j)
    && Ran(MovePlan(g, crc, d2, j), q, rel != [] || done)
    && FreeOps(g, Apply(d2, q), rel, OldExtents(IntentOf(j)))
    && (done ==> Settled(rel) && GivenBack(g, Apply(d2, q), Apply(Apply(d2, q), rel), OldExtents(IntentOf(j))))
  }

  ghost predicate AttemptRan(g: Geometry, crc: Checksum, d0: Disk, start: Super, j: Job, ops: seq<Op>, done: bool)
    requires g.Valid(|d0|)
  {
    exists f, p, q, rel :: ops == f + (p + (q + rel)) && Stretches(g, crc, d0, start, j, f, p, q, rel, done)
  }

  lemma AttemptNow(
    g: Geometry, crc: Checksum, d0: Disk, start: Super, j: Job, f: seq<Op>, p: seq<Op>, q: seq<Op>, rel: seq<Op>,
    ops: seq<Op>, done: bool)
    requires g.Valid(|d0|) && ops == f + (p + (q + rel))
    requires if f == [] then start == Clear(g, j)
             else f == Steps(PairPlan(crc, Clear(g, j))) && Precedes(start, Clear(g, j))
    requires
      var d1 := Apply(d0, f);
      var d2 := Apply(d1, p);
      && GrowOps(g, d1, p) && Settled(p) && JobReady(g, crc, d1, d2, j)
      && Ran(MovePlan(g, crc, d2, j), q, rel != [] || done)
      && FreeOps(g, Apply(d2, q), rel, OldExtents(IntentOf(j)))
      && (done ==> Settled(rel) && GivenBack(g, Apply(d2, q), Apply(Apply(d2, q), rel), OldExtents(IntentOf(j))))
    ensures AttemptRan(g, crc, d0, start, j, ops, done)
  {
    hide Apply, GrowOps, JobReady, MovePlan, FreeOps, Steps, PairPlan, IntentOf, Precedes;
    assert Stretches(g, crc, d0, start, j, f, p, q, rel, done);
  }

  /** What an attempt, or one that ended before its announcement, has done since the feature upgrade began. */
  lemma Executed(
    g: Geometry, crc: Checksum, d0: Disk, start: Super, k: Job, j: Job, f: seq<Op>, p: seq<Op>, q: seq<Op>,
    rel: seq<Op>, attempted: bool, done: bool)
    requires g.Valid(|d0|) && JobBegun(g, crc, d0, k) && k.generation != 0 && k.features <= 3
    requires j == k.(src1 := j.src1, dst1 := j.dst1)
    requires if f == [] then start == Clear(g, k)
             else f == Steps(PairPlan(crc, Clear(g, k))) && Precedes(start, Clear(g, k))
    requires GrowOps(g, Apply(d0, f), p) && (!attempted ==> q == [] && rel == [])
    requires attempted ==>
      var d1 := Apply(d0, f);
      var d2 := Apply(d1, p);
      && Settled(p) && JobReady(g, crc, d1, d2, j) && Ran(MovePlan(g, crc, d2, j), q, rel != [] || done)
      && FreeOps(g, Apply(d2, q), rel, OldExtents(IntentOf(j)))
      && (done ==> Settled(rel) && GivenBack(g, Apply(d2, q), Apply(Apply(d2, q), rel), OldExtents(IntentOf(j))))
    ensures
      var ops := f + (p + (q + rel));
      if attempted then AttemptRan(g, crc, d0, start, j, ops, done) && JobBegun(g, crc, d0, j)
      else CutUntouched(g, crc, d0, ops, k.src0.inode.id, k.dst0.inode.id)
  {
    hide JobBegun, Apply, GrowOps, JobReady, MovePlan, FreeOps, Steps, PairPlan, IntentOf, Precedes, AttemptRan,
         CutUntouched;
    var ops := f + (p + (q + rel));
    if attempted {
      BegunSame(g, crc, d0, k, j.src1, j.dst1);
      AttemptNow(g, crc, d0, start, j, f, p, q, rel, ops, done);
    } else {
      assert ops == f + p;
      UnpreparedCut(g, crc, d0, start, k, f, p);
    }
  }

  /** Grown superblocks are the same superblocks. */
  lemma ReadyQuiet(g: Geometry, crc: Checksum, d: Disk, e: Disk, j: Job)
    requires g.Valid(|d|) && JobReady(g, crc, d, e, j)
    ensures QuietCopies(crc, d, Clear(g, j)) ==> QuietCopies(crc, e, Clear(g, j))
  {
    hide SuperAt, OnlyGrew, JobShape, Full;
    GrewSame(g, crc, d, e, 0);
  }

  /**
   Wherever power is cut during an attempt, both directories are untouched and nothing is announced, or
   mounting can settle the move. Success is durable and leaves both directories as after.
   */
  lemma AttemptCut(g: Geometry, crc: Checksum, d0: Disk, start: Super, j: Job, ops: seq<Op>, done: bool, e: Disk)
    requires g.Valid(|d0|) && JobBegun(g, crc, d0, j) && AttemptRan(g, crc, d0, start, j, ops, done)
    requires j.generation != 0 && j.features <= 3 && j.features % 2 == 1
    ensures Sane(g, j) && JobShape(g, j)
    ensures CrashPoint(d0, ops, e) && QuietCopies(crc, d0, start) ==>
      Untouched(g, crc, d0, e, j.src0.inode.id, j.dst0.inode.id) || Recoverable(g, crc, e, j)
    ensures done ==>
      Settled(ops) && |Apply(d0, ops)| == |d0| && Consistent(g, crc, Apply(d0, ops), j, true)
  {
    hide JobBegun, JobReady, CrashPoint, Apply, Untouched, Recoverable, Consistent, Full, Sane, JobShape, QuietCopies,
         MovePlan, FreeOps, GrowOps, Steps, PairPlan, OnlyGrew;
    var f, p, q, rel :| ops == f + (p + (q + rel)) && Stretches(g, crc, d0, start, j, f, p, q, rel, done);
    var d1 := Apply(d0, f);
    var d2 := Apply(d1, p);
    BegunFeature(g, crc, d0, start, j, f);
    ReadySane(g, crc, d1, d2, j);
    ReadyFacts(g, crc, d1, d2, j);
    ReadyQuiet(g, crc, d1, d2, j);
    PublishCut(g, crc, d2, j, q, rel, done, e);
    ApplyConcat(d0, f, p + (q + rel));
    ApplyConcat(d1, p, q + rel);
    SettledJoinIf(p, q + rel);
    SettledJoinIf(f, p + (q + rel));
    if CrashPoint(d0, ops, e) && QuietCopies(crc, d0, start) {
      CrashPointSplit(d0, f, p + (q + rel), e);
      if CrashPoint(d0, f, e) {
        FeatureCut(g, crc, d0, j, f, e);
      } else {
        CrashPointSplit(d1, p, q + rel, e);
        if CrashPoint(d1, p, e) {
          GrowCrash(g, d1, p, e);
          GrewLength(g, d1, e);
          GrewUntouched(g, crc, d1, e, j);
          UntouchedTrans(g, crc, d0, d1, e, j.src0.inode.id, j.dst0.inode.id);
        }
      }
    }
  }

  // ----- Blocks -----

  /** The blocks of the two next versions instead of those of the two old ones, and no other change. */
  ghost predicate Exchanged(g: Geometry, d0: Disk, d: Disk, j: Job) {
    var before, after := OldExtents(IntentOf(j)), NewExtents(IntentOf(j));
    forall y: nat :: y < g.bitmapBlocks * 4096 ==>
      (Allocated(g, d, y) <==> after.Has(y) || (Allocated(g, d0, y) && !before.Has(y)))
  }

  lemma PairLow(g: Geometry, crc: Checksum, d: Disk, x: Super)
    requires g.Valid(|d|)
    ensures SameBits(g, d, Apply(d, Steps(PairPlan(crc, x))))
  {
    hide Apply, EncodeSuper, SameBits;
    var plan := PairPlan(crc, x);
    StepsApply(d, plan);
    LowBits(g, d, plan);
  }

  lemma MoveLow(g: Geometry, crc: Checksum, d: Disk, j: Job)
    requires g.Valid(|d|) && JobShape(g, j)
    ensures SameBits(g, d, Apply(d, Steps(MovePlan(g, crc, d, j))))
  {
    hide Apply, EncodeSuper, SameBits, PublishOp, DisjointExtents, Steps;
    var plan, announce := MovePlan(g, crc, d, j), PairPlan(crc, Announcement(g, j));
    var d1 := Apply(d, announce);
    PublishIsLow(g, crc, d1, j.dst1.inode);
    PublishIsLow(g, crc, ApplyOp(d1, PublishOp(g, crc, d1, j.dst1.inode)), j.src1.inode);
    StepsApply(d, plan);
    LowBits(g, d, plan);
  }

  lemma ExchangedSo(g: Geometry, d0: Disk, d1: Disk, d2: Disk, d3: Disk, d4: Disk, j: Job)
    requires JobShape(g, j) && SameBits(g, d0, d1) && TakenUp(g, d1, d2, NewExtents(IntentOf(j)))
    requires SameBits(g, d2, d3) && GivenBack(g, d3, d4, OldExtents(IntentOf(j)))
    ensures Exchanged(g, d0, d4, j)
  {
    hide Allocated;
  }

  /** A successful attempt has exchanged the blocks of the old versions for those of the next ones. */
  lemma AttemptBlocks(g: Geometry, crc: Checksum, d0: Disk, start: Super, j: Job, ops: seq<Op>)
    requires g.Valid(|d0|) && AttemptRan(g, crc, d0, start, j, ops, true)
    ensures Exchanged(g, d0, Apply(d0, ops), j)
  {
    hide JobReady, Apply, MovePlan, FreeOps, GrowOps, Steps, PairPlan, Precedes, JobShape, Full, FreshExtent, TakenUp,
         GivenBack, SameBits, Exchanged, OldExtents, NewExtents, OnlyGrew;
    var f, p, q, rel :| ops == f + (p + (q + rel)) && Stretches(g, crc, d0, start, j, f, p, q, rel, true);
    var d1 := Apply(d0, f);
    var d2 := Apply(d1, p);
    var d3 := Apply(d2, q);
    ReadyFacts(g, crc, d1, d2, j);
    if f == [] {
      ApplyNothing(d0);
      assert SameBits(g, d0, d1) by { NothingGrows(g, d0); }
    } else {
      PairLow(g, crc, d0, Clear(g, j));
    }
    MoveLow(g, crc, d2, j);
    ApplyConcat(d0, f, p + (q + rel));
    ApplyConcat(d1, p, q + rel);
    ApplyConcat(d2, q, rel);
    ExchangedSo(g, d0, d1, d2, d3, Apply(d3, rel), j);
  }
}
