/**
 What a directory's decoded contents depend on, and what therefore leaves them
 alone: the frame conditions behind appending and behind updating a child.
 */
module KuroDirFrame {
  import opened Bytes
  import opened KuroDisk
  import opened KuroBitmap
  import opened KuroAlloc
  import opened KuroExtent
  import opened KuroInode
  import opened KuroDirectory

  // ----- Children are seen only through generation and type -----

  function ChildKey(read: Result<Inode>): Result<(U32, U32)> {
    if read.Success? then Success((read.value.generation, read.value.kind)) else Failure(NotFound)
  }

  ghost predicate SameChildren(g: Geometry, crc: Checksum, d0: Disk, d: Disk)
    requires g.Valid(|d0|) && |d| == |d0|
  {
    forall id: U64 :: ChildKey(InodeAt(g, crc, d, id)) == ChildKey(InodeAt(g, crc, d0, id))
  }

  // ----- Transfer of entries between two images of a directory -----

  ghost predicate Readable(g: Geometry, crc: Checksum, d: Disk, dir: Inode)
    requires g.Valid(|d|)
  {
    DirectoryStatus(g, crc, d, dir) == Ok && InodeExtentStatus(g, d, dir) == Ok
  }

  lemma ExtentInRange(g: Geometry, d: Disk, dir: Inode)
    requires g.Valid(|d|) && InodeExtentStatus(g, d, dir) == Ok
    ensures dir.size == 0 || dir.extentStart * 512 + dir.size <= |d| * 512
    ensures dir.size > 0 ==> dir.extentStart >= g.dataStart && dir.extentStart * 512 + dir.size <= |d| * 512
  {
  }

  lemma EntryData(g: Geometry, crc: Checksum, d: Disk, dir: Inode, k: U64)
    requires g.Valid(|d|) && Readable(g, crc, d, dir) && k < dir.size / 128
    ensures dir.extentStart * 512 + k * 128 + 128 <= |d| * 512
    ensures EntryAt(g, crc, d, dir, k) == CheckedEntry(g, crc, d, Flat(d, dir.extentStart, k * 128, 128))
  {
    hide InodeAt, CheckedEntry, Flat, ExtentStatus;
    ExtentInRange(g, d, dir);
  }

  lemma CheckedEntryTransfer(g: Geometry, crc: Checksum, d0: Disk, d: Disk, record: seq<Byte>)
    requires g.Valid(|d0|) && |d| == |d0| && SameChildren(g, crc, d0, d)
    ensures CheckedEntry(g, crc, d, record) == CheckedEntry(g, crc, d0, record)
  {
  }

  lemma FlatSlice(d: Disk, first: nat, offset: nat, length: nat, total: nat)
    requires offset + length <= total && first * 512 + total <= |d| * 512
    ensures Flat(d, first, offset, length) == Flat(d, first, 0, total)[offset..offset + length]
  {
  }

  /** Two images with the same first n records over matching inode tables decode alike. */
  lemma {:induction false} EntriesTransfer(
    g: Geometry, crc: Checksum, d0: Disk, dir0: Inode, d: Disk, dir: Inode, n: U64)
    requires g.Valid(|d0|) && |d| == |d0| && SameChildren(g, crc, d0, d)
    requires Readable(g, crc, d0, dir0) && Readable(g, crc, d, dir)
    requires n <= dir0.size / 128 && n <= dir.size / 128
    requires dir0.extentStart * 512 + n * 128 <= |d0| * 512 && dir.extentStart * 512 + n * 128 <= |d| * 512
    requires Flat(d, dir.extentStart, 0, n * 128) == Flat(d0, dir0.extentStart, 0, n * 128)
    ensures EntriesUpTo(g, crc, d, dir, n) == EntriesUpTo(g, crc, d0, dir0, n)
    decreases n
  {
    hide InodeAt, CheckedEntry, Flat, EntryAt, InodeExtentStatus, DirectoryStatus, SameChildren, DivideRoundUp;
    if n != 0 {
      var k := n - 1;
      FlatSlice(d, dir.extentStart, k * 128, 128, n * 128);
      FlatSlice(d0, dir0.extentStart, k * 128, 128, n * 128);
      FlatSlice(d, dir.extentStart, 0, k * 128, n * 128);
      FlatSlice(d0, dir0.extentStart, 0, k * 128, n * 128);
      EntriesTransfer(g, crc, d0, dir0, d, dir, k);
      EntryData(g, crc, d0, dir0, k);
      EntryData(g, crc, d, dir, k);
      CheckedEntryTransfer(g, crc, d0, d, Flat(d, dir.extentStart, k * 128, 128));
    }
  }

  // ----- Contents that keep a directory -----

  ghost predicate TableSame(g: Geometry, d0: Disk, d: Disk)
    requires |d| == |d0|
  {
    forall b :: 0 <= b < |d0| && g.InInodeTable(b) ==> d[b] == d0[b]
  }

  ghost predicate BitsKept(g: Geometry, d0: Disk, d: Disk) {
    forall y: nat :: y < g.totalBlocks && Allocated(g, d0, y) ==> Allocated(g, d, y)
  }

  /** Byte j of block b is a published byte of the directory. */
  predicate DirByte(dir: Inode, b: nat, j: nat) {
    dir.extentStart <= b && j < 512 && (b - dir.extentStart) * 512 + j < dir.size
  }

  /** The published bytes of the directory are as in d0. */
  ghost predicate ImageKept(d0: Disk, d: Disk, dir: Inode)
    requires |d| == |d0|
  {
    forall b: nat, j: nat :: b < |d0| && DirByte(dir, b, j) ==> d[b][j] == d0[b][j]
  }

  ghost predicate KeepsDir(g: Geometry, d0: Disk, d: Disk, dir: Inode) {
    |d| == |d0| && TableSame(g, d0, d) && BitsKept(g, d0, d) && ImageKept(d0, d, dir)
  }

  /** An empty directory needs no extent; any other one must own allocated blocks. */
  ghost predicate DirSound(g: Geometry, d: Disk, dir: Inode) {
    dir.size == 0 || InodeExtentStatus(g, d, dir) == Ok
  }

  lemma TableSameInode(g: Geometry, crc: Checksum, d0: Disk, d: Disk, id: U64)
    requires g.Valid(|d0|) && |d| == |d0| && TableSame(g, d0, d)
    ensures InodeAt(g, crc, d, id) == InodeAt(g, crc, d0, id)
  {
  }

  lemma TableSameChildren(g: Geometry, crc: Checksum, d0: Disk, d: Disk)
    requires g.Valid(|d0|) && |d| == |d0| && TableSame(g, d0, d)
    ensures SameChildren(g, crc, d0, d)
  {
    hide InodeAt;
    forall id: U64 ensures ChildKey(InodeAt(g, crc, d, id)) == ChildKey(InodeAt(g, crc, d0, id)) {
      TableSameInode(g, crc, d0, d, id);
    }
  }

  lemma BitsKeptExtent(g: Geometry, d0: Disk, d: Disk, dir: Inode)
    requires g.Valid(|d0|) && BitsKept(g, d0, d)
    requires InodeExtentStatus(g, d0, dir) == Ok
    ensures InodeExtentStatus(g, d, dir) == Ok
  {
  }

  lemma ImageKeptFlat(d0: Disk, d: Disk, dir: Inode)
    requires |d| == |d0| && ImageKept(d0, d, dir)
    requires (dir.size == 0 || dir.extentStart * 512 + dir.size <= |d0| * 512)
    ensures Flat(d, dir.extentStart, 0, dir.size) == Flat(d0, dir.extentStart, 0, dir.size)
  {
  }

  /** Such contents still decode to the same directory. */
  lemma KeepsView(g: Geometry, crc: Checksum, d0: Disk, d: Disk, dir: Inode)
    requires g.Valid(|d0|) && KeepsDir(g, d0, d, dir)
    requires DirectoryStatus(g, crc, d0, dir) == Ok && DirSound(g, d0, dir)
    ensures DirectoryStatus(g, crc, d, dir) == Ok && DirSound(g, d, dir)
    ensures View(g, crc, d, dir.id) == View(g, crc, d0, dir.id)
  {
    hide InodeAt, EntryAt, Flat, InodeExtentStatus, ImageKept, BitsKept, TableSame, SameChildren;
    TableSameInode(g, crc, d0, d, dir.id);
    if dir.size != 0 {
      TableSameChildren(g, crc, d0, d);
      BitsKeptExtent(g, d0, d, dir);
      ExtentInRange(g, d0, dir);
      ImageKeptFlat(d0, d, dir);
      assert dir.size / 128 * 128 == dir.size;
      EntriesTransfer(g, crc, d0, dir, d, dir, dir.size / 128);
    }
  }

  // ----- Operations that keep a directory -----

  /** The blocks the directory's bytes live in are allocated in d. */
  lemma DirBlockAllocated(g: Geometry, d: Disk, dir: Inode, b: nat, j: nat)
    requires g.Valid(|d|) && DirSound(g, d, dir)
    requires DirByte(dir, b, j)
    ensures g.dataStart <= b < g.totalBlocks && Allocated(g, d, b)
  {
  }

  lemma GrewKeepsDir(g: Geometry, d0: Disk, d: Disk, dir: Inode)
    requires g.Valid(|d0|) && DirSound(g, d0, dir) && OnlyGrew(g, d0, d)
    ensures KeepsDir(g, d0, d, dir)
  {
  }

  /** Bytes written into data blocks that hold no published byte of the directory. */
  lemma DataWriteKeepsDir(g: Geometry, d0: Disk, d: Disk, d': Disk, dir: Inode, lo: nat, hi: nat)
    requires g.Valid(|d0|) && KeepsDir(g, d0, d, dir)
    requires SameOutside(d, d', lo, hi) && lo >= g.dataStart * 512
    requires forall b: nat, j: nat :: b < |d0| && DirByte(dir, b, j) ==> !(lo <= b * 512 + j < hi)
    ensures KeepsDir(g, d0, d', dir)
  {
  }

  lemma SameOutsideLow(d: Disk, d': Disk, lo: nat, hi: nat, limit: nat)
    requires SameOutside(d, d', lo, hi) && lo >= limit * 512
    ensures forall b :: 0 <= b < |d| && b < limit ==> d'[b] == d[b]
  {
  }

  // ----- Writes that leave a directory alone wherever they are cut -----

  /** A write into the directory's own extent that puts every published byte back. */
  ghost predicate TailWrite(d0: Disk, op: Op, dir: Inode)
    requires op.Write? && op.block < |d0|
  {
    && dir.extentStart <= op.block < dir.extentStart + dir.extentBlocks
    && forall j: nat :: DirByte(dir, op.block, j) ==> op.data[j] == d0[op.block][j]
  }

  /** A write that clears no bit of d0 and reaches only blocks free in d0 or the directory's unpublished tail. */
  ghost predicate Harmless(g: Geometry, d0: Disk, op: Op, dir: Inode) {
    || GrowOp(g, d0, op)
    || (op.Write? && g.dataStart <= op.block < |d0| && TailWrite(d0, op, dir))
  }

  ghost predicate HarmlessOps(g: Geometry, d0: Disk, ops: seq<Op>, dir: Inode) {
    forall i :: 0 <= i < |ops| ==> Harmless(g, d0, ops[i], dir)
  }

  lemma HarmlessJoin(g: Geometry, d0: Disk, a: seq<Op>, b: seq<Op>, dir: Inode)
    requires HarmlessOps(g, d0, a, dir) && HarmlessOps(g, d0, b, dir)
    ensures HarmlessOps(g, d0, a + b, dir)
  {
    hide Harmless;
  }

  lemma GrowIsHarmless(g: Geometry, d0: Disk, ops: seq<Op>, dir: Inode)
    requires GrowOps(g, d0, ops)
    ensures HarmlessOps(g, d0, ops, dir)
  {
    hide GrowOp, TailWrite;
  }

  /** Whatever a harmless write does not rewrite, it leaves; what it rewrites is nobody's published byte. */
  lemma HarmlessKeeps(g: Geometry, d0: Disk, e: Disk, op: Op, dir: Inode)
    requires g.Valid(|d0|) && DirSound(g, d0, dir) && KeepsDir(g, d0, e, dir)
    requires Harmless(g, d0, op, dir)
    ensures KeepsDir(g, d0, ApplyOp(e, op), dir)
  {
    hide DirSound, SectorBit;
    var e' := ApplyOp(e, op);
    forall y: nat | y < g.totalBlocks && Allocated(g, d0, y) ensures Allocated(g, e', y) {
      BitmapIndex(g, y);
    }
    forall b: nat, j: nat | b < |d0| && DirByte(dir, b, j) ensures e'[b][j] == d0[b][j] {
      DirBlockAllocated(g, d0, dir, b, j);
    }
  }

  /** Wherever power is cut while harmless writes are accepted on d0, the directory is untouched. */
  lemma HarmlessCut(g: Geometry, d0: Disk, ops: seq<Op>, dir: Inode, d: Disk)
    requires g.Valid(|d0|) && DirSound(g, d0, dir) && HarmlessOps(g, d0, ops, dir)
    requires CrashPoint(d0, ops, d)
    ensures KeepsDir(g, d0, d, dir)
  {
    hide DirSound, Harmless, CrashPoint;
    assert KeepsDir(g, d0, d0, dir);
    hide KeepsDir;
    var P := (e: Disk) => KeepsDir(g, d0, e, dir);
    forall e: Disk, i | 0 <= i < |ops| && P(e) ensures P(ApplyOp(e, ops[i])) {
      HarmlessKeeps(g, d0, e, ops[i], dir);
    }
    CrashPointInvariant(d0, ops, P, d);
  }
}
