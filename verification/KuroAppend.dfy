/**
 Appending a directory record: in place when the extent has room, otherwise by
 copying into a larger extent, and in both cases published by one inode write.
 */
module KuroAppend {
  import opened Bytes
  import opened KuroDisk
  import opened KuroBitmap
  import opened KuroAlloc
  import opened KuroExtent
  import opened KuroInode
  import opened KuroDirectory
  import opened KuroDirFrame

  // ----- Preparing the new image -----

  /** The old records sit in the extent at first, the same one or one free in d0, followed by the new one. */
  ghost predicate ImageReady(g: Geometry, d0: Disk, d: Disk, dir: Inode, first: U64, blocks: U64, record: seq<Byte>) {
    && KeepsDir(g, d0, d, dir)
    && ExtentStatus(g, d, first, blocks) == Ok
    && dir.size + 128 <= blocks * 512
    && first + blocks <= |d|
    && ((first == dir.extentStart && blocks == dir.extentBlocks) || FreeRun(g, d0, first, blocks))
    && (dir.size == 0 || dir.extentStart * 512 + dir.size <= |d0| * 512)
    && Flat(d, first, 0, dir.size) == Flat(d0, dir.extentStart, 0, dir.size)
    && Flat(d, first, dir.size, 128) == record
  }

  lemma PatchedSameOutside(d: Disk, d': Disk, base: nat, src: seq<Byte>)
    requires Patched(d, d', base, src)
    ensures SameOutside(d, d', base, base + |src|)
  {
  }

  // ----- In place -----

  lemma TailIsFree(dir: Inode, hi: nat)
    ensures forall b: nat, j: nat :: DirByte(dir, b, j) ==> !(dir.extentStart * 512 + dir.size <= b * 512 + j < hi)
  {
  }

  method AppendInPlace(fs: FileSystem, dir: Inode, record: seq<Byte>) returns (status: Status)
    requires fs.Ready() && |record| == 128 && dir.size + 128 <= dir.extentBlocks * 512
    requires DirSound(fs.geometry, fs.device.sectors, dir)
    modifies fs.device
    ensures old(fs.device.log) <= fs.device.log
    ensures fs.device.sectors == Apply(old(fs.device.sectors), fs.device.Since(|old(fs.device.log)|))
    ensures HarmlessOps(fs.geometry, old(fs.device.sectors), fs.device.Since(|old(fs.device.log)|), dir)
    ensures status == Ok ==> Flushed(fs.device.Since(|old(fs.device.log)|))
    ensures status == Ok ==>
      ImageReady(fs.geometry, old(fs.device.sectors), fs.device.sectors, dir, dir.extentStart, dir.extentBlocks, record)
    ensures fs.device.reliable && fs.mounted ==>
      ExtentStatus(fs.geometry, old(fs.device.sectors), dir.extentStart, dir.extentBlocks) == Ok ==> status == Ok
  {
    hide Apply, KeepsDir, ImageReady, Flat, ExtentStatus;
    ghost var d0, n := fs.device.sectors, |fs.device.log|;
    status := WriteExtentData(fs, dir.extentStart, dir.extentBlocks, dir.size, record);
    InPlaceResult(fs.geometry, d0, fs.device.Since(n), dir, record, status == Ok);
  }

  lemma InPlaceResult(g: Geometry, d0: Disk, ops: seq<Op>, dir: Inode, record: seq<Byte>, done: bool)
    requires g.Valid(|d0|) && |record| == 128 && dir.size + 128 <= dir.extentBlocks * 512
    requires DirSound(g, d0, dir)
    requires ops != [] || done ==> ExtentStatus(g, d0, dir.extentStart, dir.extentBlocks) == Ok
    requires WritesWithin(d0, ops, dir.extentStart * 512 + dir.size, dir.extentStart * 512 + dir.size + 128)
    requires done ==> Patched(d0, Apply(d0, ops), dir.extentStart * 512 + dir.size, record)
    ensures HarmlessOps(g, d0, ops, dir)
    ensures done ==> ImageReady(g, d0, Apply(d0, ops), dir, dir.extentStart, dir.extentBlocks, record)
  {
    hide Apply, Flat, AllAllocated, Patched, DirSound;
    forall i | 0 <= i < |ops| ensures Harmless(g, d0, ops[i], dir) {
      assert WriteWithin(d0, ops[i], dir.extentStart * 512 + dir.size, dir.extentStart * 512 + dir.size + 128);
    }
    if done {
      InPlaceImage(g, d0, Apply(d0, ops), dir, record);
    }
  }

  lemma InPlaceImage(g: Geometry, d0: Disk, d: Disk, dir: Inode, record: seq<Byte>)
    requires g.Valid(|d0|) && |record| == 128 && dir.size + 128 <= dir.extentBlocks * 512
    requires ExtentStatus(g, d0, dir.extentStart, dir.extentBlocks) == Ok
    requires Patched(d0, d, dir.extentStart * 512 + dir.size, record)
    ensures ImageReady(g, d0, d, dir, dir.extentStart, dir.extentBlocks, record)
  {
    hide DirByte, AllAllocated;
    var lo := dir.extentStart * 512 + dir.size;
    PatchedSameOutside(d0, d, lo, record);
    TailIsFree(dir, lo + 128);
    DataWriteKeepsDir(g, d0, d0, d, dir, lo, lo + 128);
    PatchedKeepsOthers(d0, d, lo, record, dir.extentStart, 0, dir.size);
    PatchedIsRead(d0, d, dir.extentStart, dir.size, record);
    BitsKeptStatus(g, d0, d, dir.extentStart, dir.extentBlocks);
  }

  lemma PatchedIsRead(d0: Disk, d: Disk, first: nat, offset: nat, src: seq<Byte>)
    requires Patched(d0, d, first * 512 + offset, src)
    requires first * 512 + offset + |src| <= |d| * 512
    ensures Flat(d, first, offset, |src|) == src
  {
  }

  lemma BitsKeptStatus(g: Geometry, d0: Disk, d: Disk, first: U64, count: U64)
    requires g.Valid(|d0|) && BitsKept(g, d0, d) && ExtentStatus(g, d0, first, count) == Ok
    ensures ExtentStatus(g, d, first, count) == Ok
  {
  }

  // ----- Copy on grow -----

  /** A fresh extent, free in d0, holds the first copied bytes of the directory. */
  ghost predicate Copying(g: Geometry, d0: Disk, d: Disk, dir: Inode, first: U64, blocks: U64, copied: nat) {
    && |d| == |d0| && KeepsDir(g, d0, d, dir)
    && FreeRun(g, d0, first, blocks)
    && ExtentStatus(g, d, first, blocks) == Ok
    && copied <= dir.size && dir.size + 128 <= blocks * 512
    && first + blocks <= |d|
    && (dir.size == 0 || dir.extentStart * 512 + dir.size <= |d0| * 512)
    && Flat(d, first, 0, copied) == Flat(d0, dir.extentStart, 0, copied)
  }

  lemma FreshIsOutside(g: Geometry, d0: Disk, dir: Inode, first: nat, blocks: nat)
    requires g.Valid(|d0|) && DirSound(g, d0, dir) && FreeRun(g, d0, first, blocks)
    ensures forall b: nat, j: nat :: b < |d0| && DirByte(dir, b, j)
              ==> !(first * 512 <= b * 512 + j < (first + blocks) * 512)
  {
    hide Allocated, DirSound, DivideRoundUp;
    forall b: nat, j: nat | b < |d0| && DirByte(dir, b, j)
      ensures !(first * 512 <= b * 512 + j < (first + blocks) * 512)
    {
      DirBlockAllocated(g, d0, dir, b, j);
    }
  }

  /** A flushed write of bytes into the fresh extent, seen from d0. */
  lemma FreshWrite(
    g: Geometry, d0: Disk, d: Disk, d': Disk, dir: Inode, first: U64, blocks: U64, offset: nat, bytes: seq<Byte>)
    requires g.Valid(|d0|) && DirSound(g, d0, dir)
    requires KeepsDir(g, d0, d, dir) && FreeRun(g, d0, first, blocks)
    requires offset + |bytes| <= blocks * 512
    requires Patched(d, d', first * 512 + offset, bytes)
    ensures KeepsDir(g, d0, d', dir)
  {
    hide DirByte, DirSound, KeepsDir, Patched, DivideRoundUp;
    FreshIsOutside(g, d0, dir, first, blocks);
    PatchedSameOutside(d, d', first * 512 + offset, bytes);
    DataWriteKeepsDir(g, d0, d, d', dir, first * 512 + offset, first * 512 + offset + |bytes|);
  }

  lemma DataWriteKeepsStatus(g: Geometry, d: Disk, d': Disk, base: nat, bytes: seq<Byte>, first: U64, count: U64)
    requires g.Valid(|d|) && Patched(d, d', base, bytes) && base >= g.dataStart * 512
    requires ExtentStatus(g, d, first, count) == Ok
    ensures ExtentStatus(g, d', first, count) == Ok
  {
    hide SectorBit;
    PatchedSameOutside(d, d', base, bytes);
    SameOutsideLow(d, d', base, base + |bytes|, g.dataStart);
    assert BitsKept(g, d, d') by {
      forall y: nat | y < g.totalBlocks && Allocated(g, d, y) ensures Allocated(g, d', y) {
        BitmapIndex(g, y);
      }
    }
    BitsKeptStatus(g, d, d', first, count);
  }

  lemma CopyStep(
    g: Geometry, d0: Disk, d: Disk, d': Disk, dir: Inode, first: U64, blocks: U64, copied: nat, bytes: seq<Byte>)
    requires g.Valid(|d0|) && DirSound(g, d0, dir)
    requires Copying(g, d0, d, dir, first, blocks, copied)
    requires copied + |bytes| <= dir.size
    requires bytes == Flat(d0, dir.extentStart, copied, |bytes|)
    requires Patched(d, d', first * 512 + copied, bytes)
    ensures Copying(g, d0, d', dir, first, blocks, copied + |bytes|)
  {
    hide KeepsDir, DirSound, Patched, ExtentStatus, DivideRoundUp, Allocated;
    PatchedSameOutside(d, d', first * 512 + copied, bytes);
    FreshWrite(g, d0, d, d', dir, first, blocks, copied, bytes);
    DataWriteKeepsStatus(g, d, d', first * 512 + copied, bytes, first, blocks);
    PatchedKeepsOthers(d, d', first * 512 + copied, bytes, first, 0, copied);
    PatchedIsRead(d, d', first, copied, bytes);
    FlatJoin(d', first, copied, |bytes|);
    FlatJoin(d0, dir.extentStart, copied, |bytes|);
  }

  lemma FlatJoin(d: Disk, first: nat, a: nat, b: nat)
    requires a + b == 0 || first * 512 + a + b <= |d| * 512
    ensures Flat(d, first, 0, a + b) == Flat(d, first, 0, a) + Flat(d, first, a, b)
  {
  }

  lemma CopyDone(
    g: Geometry, d0: Disk, d: Disk, d': Disk, dir: Inode, first: U64, blocks: U64, record: seq<Byte>)
    requires g.Valid(|d0|) && DirSound(g, d0, dir) && |record| == 128
    requires Copying(g, d0, d, dir, first, blocks, dir.size)
    requires Patched(d, d', first * 512 + dir.size, record)
    ensures ImageReady(g, d0, d', dir, first, blocks, record)
  {
    hide KeepsDir, DirSound, Patched, ExtentStatus, DivideRoundUp, Allocated, Flat;
    PatchedSameOutside(d, d', first * 512 + dir.size, record);
    FreshWrite(g, d0, d, d', dir, first, blocks, dir.size, record);
    DataWriteKeepsStatus(g, d, d', first * 512 + dir.size, record, first, blocks);
    PatchedKeepsOthers(d, d', first * 512 + dir.size, record, first, 0, dir.size);
    PatchedIsRead(d, d', first, dir.size, record);
  }

  lemma FreshStart(g: Geometry, d0: Disk, ops: seq<Op>, dir: Inode, first: U64, blocks: U64)
    requires g.Valid(|d0|) && DirSound(g, d0, dir)
    requires Issued(g, d0, ops, Extent(first, blocks)) && GrowOps(g, d0, ops)
    requires dir.size + 128 <= blocks * 512 <= UINT64_MAX
    ensures Copying(g, d0, Apply(d0, ops), dir, first, blocks, 0)
  {
    hide Allocated, Apply, DirByte, OnlyGrew;
    GrowApply(g, d0, ops);
    GrewKeepsDir(g, d0, Apply(d0, ops), dir);
    if dir.size != 0 {
      ExtentInRange(g, d0, dir);
    }
  }

  /** Writes into the fresh extent; a cut at any point keeps the published directory. */
  method WriteFresh(
    fs: FileSystem, ghost d0: Disk, ghost n: nat, ghost dir: Inode, first: U64, blocks: U64, offset: U64,
    bytes: seq<Byte>)
    returns (status: Status)
    requires fs.Ready() && |fs.device.sectors| == |d0|
    requires n <= |fs.device.log| && fs.device.sectors == Apply(d0, fs.device.Since(n))
    requires HarmlessOps(fs.geometry, d0, fs.device.Since(n), dir) && FreeRun(fs.geometry, d0, first, blocks)
    requires 0 < |bytes| <= UINT64_MAX && offset + |bytes| <= blocks * 512
    modifies fs.device
    ensures old(fs.device.log) <= fs.device.log
    ensures fs.device.sectors == Apply(d0, fs.device.Since(n))
    ensures HarmlessOps(fs.geometry, d0, fs.device.Since(n), dir)
    ensures status == Ok ==> Flushed(fs.device.Since(n))
    ensures status == Ok ==> Patched(old(fs.device.sectors), fs.device.sectors, first * 512 + offset, bytes)
    ensures fs.device.reliable && fs.mounted ==>
      ExtentStatus(fs.geometry, old(fs.device.sectors), first, blocks) == Ok ==> status == Ok
  {
    hide Apply, KeepsDir, ExtentStatus, DirSound, Patched, WritesWithin, FreeRun, HarmlessOps;
    ghost var d, before, n1 := fs.device.sectors, fs.device.Since(n), |fs.device.log|;
    status := WriteExtentData(fs, first, blocks, offset, bytes);
    Sequence(d0, fs.device.log, n, n1);
    assert fs.device.log[n..n1] == before;
    FreshIsHarmless(fs.geometry, d0, d, fs.device.Since(n1), dir, first, blocks, offset, |bytes|);
    HarmlessJoin(fs.geometry, d0, before, fs.device.Since(n1), dir);
  }

  lemma FreshIsHarmless(
    g: Geometry, d0: Disk, d: Disk, ops: seq<Op>, dir: Inode, first: U64, blocks: U64, offset: nat, length: nat)
    requires g.Valid(|d0|) && |d| == |d0| && FreeRun(g, d0, first, blocks) && offset + length <= blocks * 512
    requires WritesWithin(d, ops, first * 512 + offset, first * 512 + offset + length)
    ensures HarmlessOps(g, d0, ops, dir)
  {
    hide Allocated;
    forall i | 0 <= i < |ops| ensures Harmless(g, d0, ops[i], dir) {
      assert WriteWithin(d, ops[i], first * 512 + offset, first * 512 + offset + length);
    }
  }


  function TargetBlocks(current: U64, needed: U64): (r: U64)
    ensures r >= needed && r > 0
    ensures r == needed || r == current || r == 2 * current || r <= 2
  {
    var target := if current == 0 then 1 else current;
    if target >= needed then target
    else
      var doubled := if target <= UINT64_MAX / 2 then target * 2 else target;
      if doubled < needed then needed else doubled
  }

  /** One turn of the copy loop. */
  method CopyChunk(
    fs: FileSystem, ghost d0: Disk, ghost n: nat, dir: Inode, first: U64, blocks: U64, copied: U64)
    returns (status: Status, read: nat)
    requires fs.Ready() && |fs.device.sectors| == |d0| && DirSound(fs.geometry, d0, dir)
    requires n <= |fs.device.log| && fs.device.sectors == Apply(d0, fs.device.Since(n))
    requires HarmlessOps(fs.geometry, d0, fs.device.Since(n), dir)
    requires Copying(fs.geometry, d0, fs.device.sectors, dir, first, blocks, copied) && copied < dir.size
    modifies fs.device
    ensures old(fs.device.log) <= fs.device.log
    ensures fs.device.sectors == Apply(d0, fs.device.Since(n))
    ensures HarmlessOps(fs.geometry, d0, fs.device.Since(n), dir)
    ensures status == Ok ==> Flushed(fs.device.Since(n))
    ensures status == Ok ==> read > 0 && copied + read <= dir.size
    ensures status == Ok ==> Copying(fs.geometry, d0, fs.device.sectors, dir, first, blocks, copied + read)
    ensures fs.device.reliable && fs.mounted && Readable(fs.geometry, fs.checksum, d0, dir) ==> status == Ok
  {
    hide Apply, KeepsDir, ExtentStatus, DirSound, Patched, FreeRun, HarmlessOps, InodeAt,
         InodeExtentStatus, Flat, DivideRoundUp, DataAt, Readable;
    ghost var d := fs.device.sectors;
    read := 0;
    ChunkReads(fs.geometry, fs.checksum, d0, d, dir, copied);
    var chunk: seq<Byte>;
    status, chunk := ReadInodeData(fs, dir, copied, 128);
    if status != Ok {
      return;
    }
    if |chunk| == 0 {
      status := CorruptDirectory;
      return;
    }
    ChunkIsOriginal(fs.geometry, d0, d, dir, copied, |chunk|);
    status := WriteFresh(fs, d0, n, dir, first, blocks, copied, chunk);
    if status != Ok {
      return;
    }
    CopyStep(fs.geometry, d0, d, fs.device.sectors, dir, first, blocks, copied, chunk);
    read := |chunk|;
  }

  lemma SoundIsReadable(g: Geometry, crc: Checksum, d: Disk, dir: Inode)
    requires g.Valid(|d|) && DirSound(g, d, dir) && dir.size != 0
    ensures DirectoryStatus(g, crc, d, dir) == Ok ==> Readable(g, crc, d, dir)
  {
  }

  /** While the directory is kept, its next chunk can be read, and is not empty. */
  lemma ChunkReads(g: Geometry, crc: Checksum, d0: Disk, d: Disk, dir: Inode, copied: U64)
    requires g.Valid(|d0|) && KeepsDir(g, d0, d, dir) && copied < dir.size
    ensures Readable(g, crc, d0, dir) ==> DataAt(g, crc, d, dir, copied, 128).Success?
    ensures DataAt(g, crc, d, dir, copied, 128).Success? ==>
      var data := DataAt(g, crc, d, dir, copied, 128).value;
      && 0 < |data| <= 128 && copied + |data| <= dir.size
      && dir.extentStart * 512 + copied + |data| <= |d| * 512 && data == Flat(d, dir.extentStart, copied, |data|)
  {
    hide InodeAt, Flat, ImageKept;
    TableSameInode(g, crc, d0, d, dir.id);
    if Readable(g, crc, d0, dir) {
      BitsKeptExtent(g, d0, d, dir);
    }
  }

  lemma ChunkIsOriginal(g: Geometry, d0: Disk, d: Disk, dir: Inode, offset: nat, length: nat)
    requires KeepsDir(g, d0, d, dir) && offset + length <= dir.size
    requires dir.extentStart * 512 + dir.size <= |d0| * 512
    ensures Flat(d, dir.extentStart, offset, length) == Flat(d0, dir.extentStart, offset, length)
  {
  }

  method CopyOnGrow(fs: FileSystem, dir: Inode, record: seq<Byte>, requiredSize: U64)
    returns (status: Status, newExtent: U64, targetBlocks: U64)
    requires fs.Ready() && |record| == 128 && requiredSize == dir.size + 128
    requires DirSound(fs.geometry, fs.device.sectors, dir)
    modifies fs.device
    ensures old(fs.device.log) <= fs.device.log
    ensures fs.device.sectors == Apply(old(fs.device.sectors), fs.device.Since(|old(fs.device.log)|))
    ensures HarmlessOps(fs.geometry, old(fs.device.sectors), fs.device.Since(|old(fs.device.log)|), dir)
    ensures status == Ok ==> Flushed(fs.device.Since(|old(fs.device.log)|))
    ensures status == Ok ==>
      ImageReady(fs.geometry, old(fs.device.sectors), fs.device.sectors, dir, newExtent, targetBlocks, record)
    ensures targetBlocks == TargetBlocks(dir.extentBlocks, DivideRoundUp(requiredSize, 512))
    ensures fs.device.reliable && fs.mounted && targetBlocks * 512 <= UINT64_MAX ==>
      DirectoryStatus(fs.geometry, fs.checksum, old(fs.device.sectors), dir) == Ok ==>
      (exists s: nat :: FreeRun(fs.geometry, old(fs.device.sectors), s, targetBlocks)) ==> status == Ok
  {
    hide Apply, KeepsDir, ExtentStatus, DirSound, Patched, FreeRun, HarmlessOps,
         InodeExtentStatus, Flat, GrowOps, ImageReady, Readable, DirectoryStatus, FirstFit, AllAllocated, ZeroSectors;
    var g := fs.geometry;
    ghost var d0, n := fs.device.sectors, |fs.device.log|;
    targetBlocks := TargetBlocks(dir.extentBlocks, DivideRoundUp(requiredSize, 512));
    status, newExtent := AllocateBlocks(fs, targetBlocks);
    GrowIsHarmless(g, d0, fs.device.Since(n), dir);
    if status != Ok {
      return;
    }
    FreshStart(g, d0, fs.device.Since(n), dir, newExtent, targetBlocks);
    var copied: U64 := 0;
    while copied < dir.size
      invariant 0 <= copied <= dir.size
      invariant old(fs.device.log) <= fs.device.log
      invariant fs.device.sectors == Apply(d0, fs.device.Since(n))
      invariant HarmlessOps(g, d0, fs.device.Since(n), dir)
      invariant Copying(g, d0, fs.device.sectors, dir, newExtent, targetBlocks, copied)
    {
      var read: nat;
      SoundIsReadable(g, fs.checksum, d0, dir);
      status, read := CopyChunk(fs, d0, n, dir, newExtent, targetBlocks, copied);
      if status != Ok {
        return;
      }
      copied := copied + read;
    }
    ghost var d := fs.device.sectors;
    status := WriteFresh(fs, d0, n, dir, newExtent, targetBlocks, dir.size, record);
    if status == Ok {
      CopyDone(g, d0, d, fs.device.sectors, dir, newExtent, targetBlocks, record);
    }
  }
}
