/**
 What the device holds while an entry is moved between two directories: both
 directories in their old and new versions, and two superblock copies that may
 announce the move. The states a power cut may leave, and what keeps them.
 */
module KuroMoveState {
  import opened Bytes
  import opened Options
  import opened KuroDisk
  import opened KuroBitmap
  import opened KuroAlloc
  import opened KuroExtent
  import opened KuroInode
  import opened KuroDirectory
  import opened KuroDirFrame
  import opened KuroAppend
  import opened KuroVersion
  import opened KuroSuper

  /** One move on a volume: the child, and source and destination before and after. */
  datatype Job = Job(
    generation: U64, features: U64, childId: U64, childGeneration: U32, childKind: U32,
    src0: Version, src1: Version, dst0: Version, dst1: Version)

  function ParentOf(before: Inode, after: Inode): Parent {
    Parent(before.id, before.generation, before.revision, before.size, before.extentStart, before.extentBlocks,
           after.size, after.extentStart, after.extentBlocks)
  }

  function IntentOf(j: Job): Intent {
    Intent(j.childId, j.childGeneration, j.childKind,
           ParentOf(j.src0.inode, j.src1.inode), ParentOf(j.dst0.inode, j.dst1.inode))
  }

  function Announcement(g: Geometry, j: Job): Super {
    Super(g, j.generation, j.features, Some(IntentOf(j)))
  }

  function Clear(g: Geometry, j: Job): Super {
    Super(g, j.generation, j.features, None)
  }

  function SuperWrite(crc: Checksum, block: nat, s: Super): Op {
    Op.Write(block, EncodeSuper(crc, s))
  }

  // ----- Well-formed moves -----

  predicate DisjointExtents(a: Inode, b: Inode) {
    || a.extentBlocks == 0 || b.extentBlocks == 0
    || a.extentStart + a.extentBlocks <= b.extentStart || b.extentStart + b.extentBlocks <= a.extentStart
  }

  /** after is before with a new extent, published once more. */
  predicate Successor(before: Inode, after: Inode) {
    && before.revision < UINT32_MAX
    && after == before.(size := after.size, extentStart := after.extentStart, extentBlocks := after.extentBlocks,
                        revision := before.revision + 1)
  }

  /** Two directories, each with a new version, in extents that do not meet. */
  predicate JobShape(g: Geometry, j: Job) {
    var s0, s1, d0, d1 := j.src0.inode, j.src1.inode, j.dst0.inode, j.dst1.inode;
    && Successor(s0, s1) && Successor(d0, d1) && s0.id != d0.id
    && Acceptable(s0, s0.id) && Acceptable(d0, d0.id) && s0.kind == DIRECTORY && d0.kind == DIRECTORY
    && 0 < s0.id <= g.inodeCount && 0 < d0.id <= g.inodeCount
    && s0.size == s1.size + 128 && d1.size == d0.size + 128 && (s1.size == 0 ==> s1.extentBlocks == 0)
    && DisjointExtents(s0, s1) && DisjointExtents(s0, d1) && DisjointExtents(d0, s1) && DisjointExtents(d0, d1)
    && DisjointExtents(s0, d0) && DisjointExtents(s1, d1)
  }

  /** What recovery needs beyond that: an announcement it can read, and directories it may publish. */
  predicate Sane(g: Geometry, j: Job) {
    && Writable(Announcement(g, j), g.totalBlocks)
    && j.src0.inode.linkCount == 1 && j.dst0.inode.linkCount == 1
    && FlagsAllowed(j.src0.inode.flags, j.features) && FlagsAllowed(j.dst0.inode.flags, j.features)
  }

  // ----- The two directories -----

  ghost predicate At(g: Geometry, crc: Checksum, d: Disk, j: Job, srcAfter: bool, dstAfter: bool)
    requires g.Valid(|d|)
  {
    && InodeAt(g, crc, d, j.src0.inode.id) == Success((if srcAfter then j.src1 else j.src0).inode)
    && InodeAt(g, crc, d, j.dst0.inode.id) == Success((if dstAfter then j.dst1 else j.dst0).inode)
  }

  ghost predicate ChildOk(g: Geometry, crc: Checksum, d: Disk, j: Job)
    requires g.Valid(|d|)
  {
    ChildKey(InodeAt(g, crc, d, j.childId)) == Success((j.childGeneration, j.childKind))
  }

  ghost predicate Owns(g: Geometry, d: Disk, i: Inode) {
    ExtentStatus(g, d, i.extentStart, i.extentBlocks) == Ok
  }

  /** All four versions are stored, and the destination owns its old extent even if it was empty. */
  ghost predicate Full(g: Geometry, crc: Checksum, d: Disk, j: Job, srcAfter: bool, dstAfter: bool)
    requires g.Valid(|d|)
  {
    && At(g, crc, d, j, srcAfter, dstAfter) && ChildOk(g, crc, d, j)
    && Carries(g, crc, d, j.src0) && Carries(g, crc, d, j.src1)
    && Carries(g, crc, d, j.dst0) && Carries(g, crc, d, j.dst1) && Owns(g, d, j.dst0.inode)
  }

  /** Both directories are as before, or both as after, and stored. */
  ghost predicate Consistent(g: Geometry, crc: Checksum, d: Disk, j: Job, after: bool)
    requires g.Valid(|d|)
  {
    && At(g, crc, d, j, after, after) && ChildOk(g, crc, d, j)
    && Carries(g, crc, d, if after then j.src1 else j.src0)
    && Carries(g, crc, d, if after then j.dst1 else j.dst0)
  }

  // ----- The superblock copies -----

  function SuperAt(crc: Checksum, d: Disk, block: nat): Result<Super> {
    if block < |d| then DecodeSuper(crc, |d|, d[block]) else Failure(BlockDeviceError)
  }

  /** A copy that mounting ignores: unreadable, or an older generation of this volume without a move. */
  predicate Stale(g: Geometry, crc: Checksum, d: Disk, block: nat, j: Job) {
    var s := SuperAt(crc, d, block);
    s.Success? ==> s.value.geometry == g && s.value.generation < j.generation && s.value.move.None?
  }

  predicate Announces(g: Geometry, crc: Checksum, d: Disk, block: nat, j: Job) {
    SuperAt(crc, d, block) == Success(Announcement(g, j))
  }

  predicate Quiet(g: Geometry, crc: Checksum, d: Disk, block: nat, j: Job) {
    SuperAt(crc, d, block) == Success(Clear(g, j))
  }

  predicate CopyOk(g: Geometry, crc: Checksum, d: Disk, block: nat, j: Job) {
    Announces(g, crc, d, block, j) || Quiet(g, crc, d, block, j) || Stale(g, crc, d, block, j)
  }

  predicate CopiesOk(g: Geometry, crc: Checksum, d: Disk, j: Job) {
    && CopyOk(g, crc, d, 0, j) && CopyOk(g, crc, d, 1, j)
    && !(Stale(g, crc, d, 0, j) && Stale(g, crc, d, 1, j))
  }

  predicate Announced(g: Geometry, crc: Checksum, d: Disk, j: Job) {
    Announces(g, crc, d, 0, j) || Announces(g, crc, d, 1, j)
  }

  predicate BothAnnounce(g: Geometry, crc: Checksum, d: Disk, j: Job) {
    Announces(g, crc, d, 0, j) && Announces(g, crc, d, 1, j)
  }

  /**
   A state that mounting can complete or undo: both directories as before, or both as after, with the other
   versions still there while the move is announced; or the destination alone as after, the primary copy announcing.
   */
  ghost predicate Recoverable(g: Geometry, crc: Checksum, d: Disk, j: Job) {
    && g.Valid(|d|) && JobShape(g, j) && Sane(g, j) && CopiesOk(g, crc, d, j)
    && (|| (Consistent(g, crc, d, j, false) && (Announced(g, crc, d, j) ==> Full(g, crc, d, j, false, false)))
        || (Full(g, crc, d, j, false, true) && Announces(g, crc, d, 0, j))
        || (Consistent(g, crc, d, j, true) && (Announced(g, crc, d, j) ==> Full(g, crc, d, j, true, true))))
  }

  // ----- Superblock writes -----

  lemma LowWriteOwns(g: Geometry, d: Disk, op: Op, i: Inode)
    requires g.Valid(|d|) && op.Write? && op.block < g.bitmapStart && Owns(g, d, i)
    ensures Owns(g, ApplyOp(d, op), i)
  {
    hide SectorBit;
    var d' := ApplyOp(d, op);
    assert BitsKept(g, d, d') by {
      forall y: nat | y < g.totalBlocks && Allocated(g, d, y) ensures Allocated(g, d', y) {
        BitmapIndex(g, y);
      }
    }
    BitsKeptStatus(g, d, d', i.extentStart, i.extentBlocks);
  }

  lemma SuperWriteTable(g: Geometry, d: Disk, block: nat, sector: Sector)
    requires g.Valid(|d|) && block < 2
    ensures TableSame(g, d, ApplyOp(d, Op.Write(block, sector)))
  {
  }

  lemma SuperWriteCarries(g: Geometry, crc: Checksum, d: Disk, block: nat, sector: Sector, v: Version)
    requires g.Valid(|d|) && block < 2 && Carries(g, crc, d, v)
    ensures Carries(g, crc, ApplyOp(d, Op.Write(block, sector)), v)
  {
    hide SectorBit, InodeAt, SameChildren, Decoded, Flat;
    var d' := ApplyOp(d, Op.Write(block, sector));
    SuperWriteTable(g, d, block, sector);
    TableSameChildren(g, crc, d, d');
    if v.inode.size != 0 {
      forall y: nat | v.inode.extentStart <= y < v.inode.extentStart + v.inode.extentBlocks
        ensures Allocated(g, d', y)
      {
        assert Allocated(g, d, y);
        BitmapIndex(g, y);
      }
    }
    forall b: nat, k: nat | b < |d| && DirByte(v.inode, b, k) ensures d'[b][k] == d[b][k] {
      DirBlockAllocated(g, d, v.inode, b, k);
    }
    CarriedOn(g, crc, d, d', v);
  }

  /** A superblock write leaves both directories and all their versions alone. */
  lemma SuperWriteKeeps(g: Geometry, crc: Checksum, d: Disk, block: nat, sector: Sector, j: Job)
    requires g.Valid(|d|) && block < 2
    ensures
      var d' := ApplyOp(d, Op.Write(block, sector));
      && (forall s, t :: At(g, crc, d', j, s, t) <==> At(g, crc, d, j, s, t))
      && (forall s, t :: Full(g, crc, d, j, s, t) ==> Full(g, crc, d', j, s, t))
      && (forall after :: Consistent(g, crc, d, j, after) ==> Consistent(g, crc, d', j, after))
  {
    hide InodeAt, Carries, Owns;
    var d' := ApplyOp(d, Op.Write(block, sector));
    if Owns(g, d, j.dst0.inode) {
      LowWriteOwns(g, d, Op.Write(block, sector), j.dst0.inode);
    }
    SuperWriteTable(g, d, block, sector);
    TableSameInode(g, crc, d, d', j.src0.inode.id);
    TableSameInode(g, crc, d, d', j.dst0.inode.id);
    TableSameInode(g, crc, d, d', j.childId);
    forall v: Version | Carries(g, crc, d, v) ensures Carries(g, crc, d', v) {
      SuperWriteCarries(g, crc, d, block, sector, v);
    }
  }

  lemma ClearIsWritable(g: Geometry, j: Job)
    requires Sane(g, j)
    ensures Writable(Clear(g, j), g.totalBlocks)
  {
  }

  /** The copy written reads back as written; the other one is as it was. */
  lemma SuperWriteCopies(g: Geometry, crc: Checksum, d: Disk, block: nat, s: Super)
    requires g.Valid(|d|) && block < 2 && Writable(s, |d|)
    ensures
      var d' := ApplyOp(d, SuperWrite(crc, block, s));
      SuperAt(crc, d', block) == Success(s) && SuperAt(crc, d', 1 - block) == SuperAt(crc, d, 1 - block)
  {
    hide DecodeSuper, EncodeSuper, Writable;
    SuperRoundTrip(crc, s, |d|);
  }

  /** Withdrawing one copy's announcement keeps a state recoverable unless only one parent was updated. */
  lemma WithdrawKeeps(g: Geometry, crc: Checksum, d: Disk, j: Job, block: nat)
    requires Recoverable(g, crc, d, j) && block < 2 && !At(g, crc, d, j, false, true)
    ensures
      var d' := ApplyOp(d, SuperWrite(crc, block, Clear(g, j)));
      && Recoverable(g, crc, d', j) && Quiet(g, crc, d', block, j)
      && SuperAt(crc, d', 1 - block) == SuperAt(crc, d, 1 - block)
      && (forall s, t :: At(g, crc, d', j, s, t) <==> At(g, crc, d, j, s, t))
      && (forall s, t :: Full(g, crc, d, j, s, t) ==> Full(g, crc, d', j, s, t))
  {
    hide At, Full, Consistent, SuperAt, Sane, JobShape, EncodeSuper;
    ClearIsWritable(g, j);
    SuperWriteCopies(g, crc, d, block, Clear(g, j));
    SuperWriteKeeps(g, crc, d, block, EncodeSuper(crc, Clear(g, j)), j);
    FullIsAt(g, crc, d, j, false, true);
  }

  lemma FullIsAt(g: Geometry, crc: Checksum, d: Disk, j: Job, s: bool, t: bool)
    requires g.Valid(|d|)
    ensures Full(g, crc, d, j, s, t) ==> At(g, crc, d, j, s, t)
    ensures Full(g, crc, d, j, s, s) ==> Consistent(g, crc, d, j, s)
  {
  }

  /** Announcing the move in one more copy, with everything prepared. */
  lemma AnnounceKeeps(g: Geometry, crc: Checksum, d: Disk, j: Job, block: nat)
    requires Recoverable(g, crc, d, j) && block < 2 && Full(g, crc, d, j, false, false)
    ensures
      var d' := ApplyOp(d, SuperWrite(crc, block, Announcement(g, j)));
      && Recoverable(g, crc, d', j) && Full(g, crc, d', j, false, false) && Announces(g, crc, d', block, j)
      && SuperAt(crc, d', 1 - block) == SuperAt(crc, d, 1 - block)
  {
    hide At, Full, Consistent, SuperAt, JobShape, EncodeSuper, Writable;
    SuperWriteCopies(g, crc, d, block, Announcement(g, j));
    SuperWriteKeeps(g, crc, d, block, EncodeSuper(crc, Announcement(g, j)), j);
    FullIsAt(g, crc, ApplyOp(d, SuperWrite(crc, block, Announcement(g, j))), j, false, false);
  }

  // ----- Publishing a parent -----

  lemma PublishKeepsSupers(g: Geometry, crc: Checksum, d: Disk, i: Inode, block: nat)
    requires g.Valid(|d|) && 0 < i.id <= g.inodeCount && block < 2
    ensures SuperAt(crc, ApplyOp(d, PublishOp(g, crc, d, i)), block) == SuperAt(crc, d, block)
  {
    hide DecodeSuper, EncodeInode, Splice;
    InodeBlockInTable(g, i.id);
  }

  /** A publication that keeps generation and type leaves every version and every other inode alone. */
  lemma PublishKeeps(g: Geometry, crc: Checksum, d: Disk, was: Inode, i: Inode, j: Job)
    requires g.Valid(|d|) && InodeAt(g, crc, d, i.id) == Success(was) && Successor(was, i)
    ensures
      var d' := ApplyOp(d, PublishOp(g, crc, d, i));
      && InodeAt(g, crc, d', i.id) == Success(i)
      && (forall id: U64 :: id != i.id ==> InodeAt(g, crc, d', id) == InodeAt(g, crc, d, id))
      && (ChildOk(g, crc, d, j) ==> ChildOk(g, crc, d', j))
      && (forall v: Version :: Carries(g, crc, d, v) ==> Carries(g, crc, d', v))
      && (Owns(g, d, j.dst0.inode) ==> Owns(g, d', j.dst0.inode))
  {
    hide InodeAt, Carries, PublishOp, Owns;
    var d' := ApplyOp(d, PublishOp(g, crc, d, i));
    if Owns(g, d, j.dst0.inode) {
      PublishIsLow(g, crc, d, i);
      LowWriteOwns(g, d, PublishOp(g, crc, d, i), j.dst0.inode);
    }
    forall id: U64 ensures InodeAt(g, crc, d', id) == if id == i.id then Success(i) else InodeAt(g, crc, d, id) {
      PublishedTable(g, crc, d, i, id);
    }
    assert SameChildren(g, crc, d, d);
    PublishKeepsChildren(g, crc, d, d, was, i);
    forall v: Version | Carries(g, crc, d, v) ensures Carries(g, crc, d', v) {
      TableWriteCarries(g, crc, d, d, i, v);
    }
  }

  lemma PublishIsLow(g: Geometry, crc: Checksum, d: Disk, i: Inode)
    requires g.Valid(|d|) && 0 < i.id <= g.inodeCount
    ensures 2 <= PublishOp(g, crc, d, i).block < g.bitmapStart
  {
    InodeBlockInTable(g, i.id);
  }

  lemma PublishDestination(g: Geometry, crc: Checksum, d: Disk, j: Job)
    requires g.Valid(|d|) && JobShape(g, j) && Full(g, crc, d, j, false, false)
    ensures
      var d' := ApplyOp(d, PublishOp(g, crc, d, j.dst1.inode));
      && Full(g, crc, d', j, false, true)
      && SuperAt(crc, d', 0) == SuperAt(crc, d, 0) && SuperAt(crc, d', 1) == SuperAt(crc, d, 1)
  {
    hide InodeAt, Carries, PublishOp, ChildOk, SuperAt, Owns;
    PublishKeeps(g, crc, d, j.dst0.inode, j.dst1.inode, j);
    PublishKeepsSupers(g, crc, d, j.dst1.inode, 0);
    PublishKeepsSupers(g, crc, d, j.dst1.inode, 1);
  }

  lemma PublishSource(g: Geometry, crc: Checksum, d: Disk, j: Job)
    requires g.Valid(|d|) && JobShape(g, j) && Full(g, crc, d, j, false, true)
    ensures
      var d' := ApplyOp(d, PublishOp(g, crc, d, j.src1.inode));
      && Full(g, crc, d', j, true, true)
      && SuperAt(crc, d', 0) == SuperAt(crc, d, 0) && SuperAt(crc, d', 1) == SuperAt(crc, d, 1)
  {
    hide InodeAt, Carries, PublishOp, ChildOk, SuperAt, Owns;
    PublishKeeps(g, crc, d, j.src0.inode, j.src1.inode, j);
    PublishKeepsSupers(g, crc, d, j.src1.inode, 0);
    PublishKeepsSupers(g, crc, d, j.src1.inode, 1);
  }
}
