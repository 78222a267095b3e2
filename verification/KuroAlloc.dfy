/**
 The persistent extent allocator: first-fit search over the bitmap, bitmap
 publication, clearing of the new extent, and the run-level guarantee that no
 block is ever handed out twice.
 */
module KuroAlloc {
  import opened Bytes
  import opened KuroDisk
  import opened KuroBitmap

  datatype FileSystem = FileSystem(
    device: Device,
    geometry: Geometry,
    mounted: bool,
    checksum: seq<Byte> -> U32)
  {
    ghost predicate Ready()
      reads device
    {
      geometry.Valid(|device.sectors|)
    }
  }

  // ----- One accepted write or flush, as an extension of the operations since n -----

  method WriteOne(fs: FileSystem, ghost d0: Disk, ghost n: nat, block: nat, data: Sector) returns (status: Status)
    requires n <= |fs.device.log| && fs.device.sectors == Apply(d0, fs.device.Since(n))
    modifies fs.device
    ensures status == Ok || status == BlockDeviceError
    ensures old(fs.device.log) <= fs.device.log
    ensures fs.device.sectors == Apply(d0, fs.device.Since(n))
    ensures status == Ok ==> block < |d0| && fs.device.Since(n) == old(fs.device.Since(n)) + [Op.Write(block, data)]
    ensures status != Ok ==>
      || fs.device.Since(n) == old(fs.device.Since(n))
      || (block < |d0| && fs.device.Since(n) == old(fs.device.Since(n)) + [Op.Write(block, data)])
    ensures fs.device.reliable && block < |d0| ==> status == Ok
  {
    ghost var log := fs.device.log;
    status := fs.device.Write(block, data);
    if |fs.device.log| != |log| {
      Extend(d0, n, log, fs.device.log, Op.Write(block, data));
    }
  }

  method FlushAll(fs: FileSystem, ghost d0: Disk, ghost n: nat) returns (status: Status)
    requires n <= |fs.device.log| && fs.device.sectors == Apply(d0, fs.device.Since(n))
    modifies fs.device
    ensures status == Ok || status == BlockDeviceError
    ensures old(fs.device.log) <= fs.device.log
    ensures fs.device.sectors == old(fs.device.sectors) == Apply(d0, fs.device.Since(n))
    ensures status == Ok ==> fs.device.Since(n) == old(fs.device.Since(n)) + [Op.Flush]
    ensures status != Ok ==> fs.device.log == old(fs.device.log)
    ensures fs.device.reliable ==> status == Ok
  {
    ghost var log := fs.device.log;
    status := fs.device.Flush();
    if status == Ok {
      Extend(d0, n, log, fs.device.log, Op.Flush);
    }
  }

  /** One more accepted operation. */
  lemma Extend(d0: Disk, n: nat, log: seq<Op>, log': seq<Op>, op: Op)
    requires n <= |log| && log' == log + [op]
    ensures log'[n..] == log[n..] + [op]
    ensures Apply(d0, log'[n..]) == ApplyOp(Apply(d0, log[n..]), op)
  {
  }

  // ----- First fit -----

  /** The bitmap sector held in memory while a scan walks over blocks. */
  datatype Cache = Cache(index: nat, bitmap: Sector)
  {
    ghost predicate Holds(g: Geometry, d: Disk) {
      index != UINT64_MAX ==> g.bitmapStart + index < |d| && bitmap == d[g.bitmapStart + index]
    }
  }

  function EmptyCache(): Cache { Cache(UINT64_MAX, ZeroSector()) }

  /** Tests one block's bit, loading its bitmap sector when the scan crosses into it. */
  method ProbeBlock(fs: FileSystem, cache: Cache, block: nat) returns (status: Status, used: bool, cache': Cache)
    requires fs.Ready() && block < fs.geometry.totalBlocks
    requires cache.Holds(fs.geometry, fs.device.sectors)
    ensures status == Ok || status == BlockDeviceError
    ensures status == Ok ==> used == Allocated(fs.geometry, fs.device.sectors, block)
    ensures status == Ok ==> cache'.Holds(fs.geometry, fs.device.sectors)
    ensures fs.device.reliable ==> status == Ok
  {
    var g := fs.geometry;
    used, cache' := false, cache;
    var bitmapIndex := block / 4096;
    if bitmapIndex >= g.bitmapBlocks {
      return InvalidGeometry, used, cache';
    }
    if bitmapIndex != cache.index {
      var bitmap: Sector;
      status, bitmap := fs.device.Read(g.bitmapStart + bitmapIndex);
      if status != Ok {
        return;
      }
      cache' := Cache(bitmapIndex, bitmap);
    }
    status, used := Ok, SectorBit(cache'.bitmap, block);
  }

  method FindFreeExtent(fs: FileSystem, blockCount: U64) returns (status: Status, start: U64)
    requires fs.Ready() && blockCount > 0
    ensures status in {Ok, NoSpace, BlockDeviceError}
    ensures status == Ok ==> FirstFit(fs.geometry, fs.device.sectors, start, blockCount)
    ensures status == NoSpace ==> forall s: nat :: !FreeRun(fs.geometry, fs.device.sectors, s, blockCount)
    ensures fs.device.reliable ==> status != BlockDeviceError
  {
    var g := fs.geometry;
    ghost var d := fs.device.sectors;
    var cache := EmptyCache();
    var runStart: U64, runLength: U64 := 0, 0;
    start := 0;
    var block := g.dataStart;
    while block < g.totalBlocks
      invariant g.dataStart <= block <= g.totalBlocks
      invariant cache.Holds(g, d)
      invariant runLength < blockCount
      invariant runLength > 0 ==> runStart == block - runLength
      invariant TailRun(g, d, block, runLength)
      invariant NoRunUpTo(g, d, block, blockCount)
    {
      var used: bool;
      status, used, cache := ProbeBlock(fs, cache, block);
      if status != Ok {
        return;
      }
      TailRunStep(g, d, block, runLength, blockCount);
      if !used {
        if runLength == 0 {
          runStart := block;
        }
        runLength := runLength + 1;
        if runLength == blockCount {
          return Ok, runStart;
        }
      } else {
        runLength := 0;
      }
      block := block + 1;
    }
    status := NoSpace;
  }

  /** The length free blocks just before block are as far as the free run reaches back. */
  ghost predicate TailRun(g: Geometry, d: Disk, block: nat, length: nat) {
    && g.dataStart <= block - length
    && (forall y :: block - length <= y < block ==> !Allocated(g, d, y))
    && (block - length == g.dataStart || Allocated(g, d, block - length - 1))
  }

  ghost predicate NoRunUpTo(g: Geometry, d: Disk, block: nat, count: nat) {
    forall s: nat :: s + count <= block ==> !FreeRun(g, d, s, count)
  }

  lemma TailRunStep(g: Geometry, d: Disk, block: nat, length: nat, count: nat)
    requires TailRun(g, d, block, length) && length < count
    requires NoRunUpTo(g, d, block, count)
    requires block < g.totalBlocks
    ensures TailRun(g, d, block + 1, if Allocated(g, d, block) then 0 else length + 1)
    ensures Allocated(g, d, block) || length + 1 < count ==> NoRunUpTo(g, d, block + 1, count)
    ensures !Allocated(g, d, block) && length + 1 == count ==> FirstFit(g, d, block - length, count)
  {
  }

  // ----- Bitmap publication -----

  /** The blocks [first, upTo) are allocated on top of those of d0, and no others. */
  ghost predicate BitsAdded(g: Geometry, d0: Disk, d: Disk, first: nat, upTo: nat) {
    forall y: nat :: y < g.bitmapBlocks * 4096 ==> (Allocated(g, d, y) <==> Allocated(g, d0, y) || first <= y < upTo)
  }

  /** The bitmap after the blocks [first, upTo) have been marked on top of d0. */
  ghost predicate Marked(g: Geometry, d0: Disk, d: Disk, first: nat, upTo: nat) {
    && |d| == |d0|
    && (forall b :: 0 <= b < |d0| && !g.InBitmap(b) ==> d[b] == d0[b])
    && BitsAdded(g, d0, d, first, upTo)
  }

  /** bitmap with the bits for [from, to) set on top of before, all of them clear in it. */
  ghost predicate SegmentMarked(before: Sector, bitmap: Sector, from: nat, to: nat) {
    && (forall y: nat :: y / 4096 == from / 4096 ==>
          (SectorBit(bitmap, y) <==> SectorBit(before, y) || from <= y < to))
    && (forall y :: from <= y < to ==> !SectorBit(before, y))
  }

  /** Marks [from, to) inside one bitmap sector, refusing a bit that is already set. */
  method MarkSegment(before: Sector, from: nat, to: nat) returns (status: Status, bitmap: Sector)
    requires from <= to <= (from / 4096 + 1) * 4096
    ensures status == Ok || status == NoSpace
    ensures status == Ok ==> SegmentMarked(before, bitmap, from, to)
    ensures status == NoSpace ==> exists y :: from <= y < to && SectorBit(before, y)
  {
    bitmap := before;
    var block := from;
    while block < to
      invariant from <= block <= to
      invariant SegmentMarked(before, bitmap, from, block)
    {
      if SectorBit(bitmap, block) {
        assert block / 4096 == from / 4096;
        return NoSpace, bitmap;
      }
      ghost var previous := bitmap;
      bitmap := MarkBit(bitmap, block);
      MarkedOne(before, previous, bitmap, from, block);
      block := block + 1;
    }
    status := Ok;
  }

  lemma MarkedOne(before: Sector, previous: Sector, bitmap: Sector, from: nat, block: nat)
    requires from <= block < (from / 4096 + 1) * 4096
    requires SegmentMarked(before, previous, from, block)
    requires !SectorBit(previous, block)
    requires bitmap == MarkBit(previous, block)
    ensures SegmentMarked(before, bitmap, from, block + 1)
  {
  }

  /** A publication that has marked [first, upTo) with the accepted operations ops. */
  ghost predicate Published(g: Geometry, d0: Disk, ops: seq<Op>, first: nat, upTo: nat) {
    && GrowOps(g, d0, ops)
    && Marked(g, d0, Apply(d0, ops), first, upTo)
    && (forall y :: first <= y < upTo ==> !Allocated(g, d0, y))
  }

  /** Marks the part of [current, endBlock) that one bitmap sector represents. */
  method PublishSegment(fs: FileSystem, ghost d0: Disk, ghost n: nat, ghost first: nat, current: nat, endBlock: nat)
    returns (status: Status, segmentEnd: nat)
    requires fs.geometry.Valid(|d0|) && |fs.device.sectors| == |d0|
    requires first <= current < endBlock <= fs.geometry.totalBlocks
    requires n <= |fs.device.log| && fs.device.sectors == Apply(d0, fs.device.Since(n))
    requires Published(fs.geometry, d0, fs.device.Since(n), first, current)
    modifies fs.device
    ensures old(fs.device.log) <= fs.device.log
    ensures fs.device.sectors == Apply(d0, fs.device.Since(n))
    ensures current < segmentEnd <= endBlock
    ensures GrowOps(fs.geometry, d0, fs.device.Since(n))
    ensures status == Ok ==> Published(fs.geometry, d0, fs.device.Since(n), first, segmentEnd)
    ensures status == NoSpace ==> exists y :: current <= y < segmentEnd && Allocated(fs.geometry, d0, y)
    ensures status in {Ok, NoSpace, BlockDeviceError} && (fs.device.reliable ==> status != BlockDeviceError)
  {
    var g := fs.geometry;
    var bitmapIndex := current / 4096;
    var representedEnd := (bitmapIndex + 1) * 4096;
    segmentEnd := if endBlock < representedEnd then endBlock else representedEnd;
    if bitmapIndex >= g.bitmapBlocks {
      return InvalidGeometry, segmentEnd;
    }
    var bitmap: Sector, marked: Sector;
    var bitmapBlock := g.bitmapStart + bitmapIndex;
    status, bitmap := fs.device.Read(bitmapBlock);
    if status == Ok {
      status, marked := MarkSegment(bitmap, current, segmentEnd);
      if status == Ok {
        SegmentWritten(g, d0, fs.device.Since(n), marked, first, current, segmentEnd);
        status := WriteOne(fs, d0, n, bitmapBlock, marked);
      } else {
        var y :| current <= y < segmentEnd && SectorBit(bitmap, y);
        assert y / 4096 == bitmapIndex;
        assert Allocated(g, fs.device.sectors, y);
      }
    }
  }

  method PublishExtentAllocation(fs: FileSystem, firstBlock: U64, blockCount: U64) returns (status: Status)
    requires fs.Ready()
    modifies fs.device
    ensures old(fs.device.log) <= fs.device.log
    ensures fs.device.sectors == Apply(old(fs.device.sectors), fs.device.Since(|old(fs.device.log)|))
    ensures GrowOps(fs.geometry, old(fs.device.sectors), fs.device.Since(|old(fs.device.log)|))
    ensures status == Ok ==> FreeRun(fs.geometry, old(fs.device.sectors), firstBlock, blockCount)
    ensures status == NoSpace ==> !FreeRun(fs.geometry, old(fs.device.sectors), firstBlock, blockCount)
    ensures status == Ok ==>
      Marked(fs.geometry, old(fs.device.sectors), fs.device.sectors, firstBlock, firstBlock + blockCount)
    ensures status == Ok ==> fs.device.log != old(fs.device.log) && Settled(fs.device.log)
    ensures FreeRun(fs.geometry, old(fs.device.sectors), firstBlock, blockCount) ==>
      status in {Ok, BlockDeviceError} && (fs.device.reliable ==> status == Ok)
  {
    hide Allocated, SectorBit;
    var g := fs.geometry;
    ghost var d0, n := fs.device.sectors, |fs.device.log|;
    var sum := AddU64(firstBlock, blockCount);
    if sum.Failure? || firstBlock < g.dataStart || sum.value > g.totalBlocks {
      return InvalidGeometry;
    }
    var endBlock, current := sum.value, firstBlock;
    while current < endBlock
      invariant firstBlock <= current <= endBlock
      invariant old(fs.device.log) <= fs.device.log
      invariant fs.device.sectors == Apply(d0, fs.device.Since(n))
      invariant Published(g, d0, fs.device.Since(n), firstBlock, current)
    {
      status, current := PublishSegment(fs, d0, n, firstBlock, current, endBlock);
      if status != Ok {
        return;
      }
    }
    status := FlushAll(fs, d0, n);
  }

  lemma SegmentWritten(g: Geometry, d0: Disk, ops: seq<Op>, bitmap: Sector, first: nat, current: nat, end: nat)
    requires g.Valid(|d0|) && current < g.totalBlocks
    requires Published(g, d0, ops, first, current)
    requires first <= current <= end <= (current / 4096 + 1) * 4096
    requires SegmentMarked(Apply(d0, ops)[g.bitmapStart + current / 4096], bitmap, current, end)
    ensures Published(g, d0, ops + [Op.Write(g.bitmapStart + current / 4096, bitmap)], first, end)
  {
    hide Allocated, SectorBit, Apply, Marked, GrowOp, SegmentMarked;
    var index, d := current / 4096, Apply(d0, ops);
    var op := Op.Write(g.bitmapStart + index, bitmap);
    ApplyOneMore(d0, ops, op);
    SegmentMarkedBits(g, d0, d, Apply(d0, ops + [op]), bitmap, first, current, end);
    SegmentGrows(g, d0, d, bitmap, first, current, end);
  }

  lemma SegmentGrows(g: Geometry, d0: Disk, d: Disk, bitmap: Sector, first: nat, current: nat, end: nat)
    requires g.Valid(|d0|) && current < g.totalBlocks
    requires Marked(g, d0, d, first, current)
    requires SegmentMarked(d[g.bitmapStart + current / 4096], bitmap, current, end)
    ensures GrowOp(g, d0, Op.Write(g.bitmapStart + current / 4096, bitmap))
  {
    var index := current / 4096;
    forall z: nat | SectorBit(d0[g.bitmapStart + index], z) ensures SectorBit(bitmap, z) {
      var y := index * 4096 + z % 4096;
      assert y / 4096 == index && y % 4096 == z % 4096;
      assert Allocated(g, d0, y);
      assert Allocated(g, d, y);
    }
  }

  lemma SegmentMarkedBits(g: Geometry, d0: Disk, d: Disk, d': Disk, bitmap: Sector, first: nat, current: nat, end: nat)
    requires g.Valid(|d0|) && current < g.totalBlocks
    requires Marked(g, d0, d, first, current)
    requires first <= current <= end <= (current / 4096 + 1) * 4096
    requires SegmentMarked(d[g.bitmapStart + current / 4096], bitmap, current, end)
    requires d' == d[g.bitmapStart + current / 4096 := bitmap]
    ensures Marked(g, d0, d', first, end)
    ensures forall y :: current <= y < end ==> !Allocated(g, d0, y)
  {
    forall y: nat | y < g.bitmapBlocks * 4096
      ensures Allocated(g, d', y) <==> Allocated(g, d0, y) || first <= y < end
    {
      assert Allocated(g, d, y) <==> Allocated(g, d0, y) || first <= y < current;
    }
    forall y | current <= y < end ensures !Allocated(g, d0, y) {
      assert y / 4096 == current / 4096;
      assert !Allocated(g, d, y);
    }
  }

  // ----- Extent validation and clearing -----

  ghost function ExtentStatus(g: Geometry, d: Disk, first: U64, count: U64): (s: Status)
    ensures s == Ok || s == InvalidExtent || s == ArithmeticOverflow
  {
    if count == 0 then
      if first != 0 then InvalidExtent else Ok
    else if first + count > UINT64_MAX || count * 512 > UINT64_MAX then ArithmeticOverflow
    else if first < g.dataStart || first + count > g.totalBlocks then InvalidExtent
    else if AllAllocated(g, d, first, count) then Ok else InvalidExtent
  }

  function MultiplyU64(left: U64, right: U64): (r: Result<U64>) {
    if left * right > UINT64_MAX then Failure(ArithmeticOverflow) else Success(left * right)
  }

  method ValidateAllocatedExtent(fs: FileSystem, firstBlock: U64, blockCount: U64)
    returns (status: Status, capacity: U64)
    requires fs.Ready()
    ensures status == BlockDeviceError || status == ExtentStatus(fs.geometry, fs.device.sectors, firstBlock, blockCount)
    ensures status == Ok ==> capacity == blockCount * 512
    ensures fs.device.reliable ==> status != BlockDeviceError
  {
    var g := fs.geometry;
    capacity := 0;
    if blockCount == 0 {
      status := if firstBlock != 0 then InvalidExtent else Ok;
      return;
    }
    var sum, product := AddU64(firstBlock, blockCount), MultiplyU64(blockCount, 512);
    if sum.Failure? || product.Failure? {
      return ArithmeticOverflow, 0;
    }
    if firstBlock < g.dataStart || sum.value > g.totalBlocks {
      return InvalidExtent, 0;
    }
    var cache, block := EmptyCache(), firstBlock;
    while block < sum.value
      invariant firstBlock <= block <= sum.value
      invariant cache.Holds(g, fs.device.sectors)
      invariant AllAllocated(g, fs.device.sectors, firstBlock, block - firstBlock)
    {
      var used: bool;
      status, used, cache := ProbeBlock(fs, cache, block);
      if status != Ok {
        return;
      }
      if !used {
        return InvalidExtent, 0;
      }
      block := block + 1;
    }
    status, capacity := Ok, product.value;
  }

  ghost predicate ZeroOps(ops: seq<Op>, first: nat, count: nat) {
    forall i :: 0 <= i < |ops| && ops[i].Write? ==>
      first <= ops[i].block < first + count && IsZero(ops[i].data)
  }

  /** d0 with the sectors [first, upTo) cleared. */
  ghost predicate Zeroed(d0: Disk, d: Disk, first: nat, upTo: nat) {
    && |d| == |d0|
    && forall b :: 0 <= b < |d0| ==> if first <= b < upTo then IsZero(d[b]) else d[b] == d0[b]
  }

  ghost predicate ZeroProgress(d0: Disk, ops: seq<Op>, first: nat, count: nat, done: nat) {
    ZeroOps(ops, first, count) && Zeroed(d0, Apply(d0, ops), first, first + done)
  }

  lemma ZeroProgressStart(d0: Disk, first: nat, count: nat)
    ensures ZeroProgress(d0, [], first, count, 0)
  {
  }

  lemma ZeroProgressStep(d0: Disk, ops: seq<Op>, first: nat, count: nat, done: nat, zero: Sector)
    requires ZeroProgress(d0, ops, first, count, done)
    requires done < count && first + done < |d0| && IsZero(zero)
    ensures ZeroProgress(d0, ops + [Op.Write(first + done, zero)], first, count, done + 1)
  {
  }

  lemma ZeroProgressFlush(d0: Disk, ops: seq<Op>, first: nat, count: nat)
    requires ZeroProgress(d0, ops, first, count, count)
    ensures ZeroProgress(d0, ops + [Op.Flush], first, count, count)
  {
  }

  method ZeroExtent(fs: FileSystem, firstBlock: U64, blockCount: U64) returns (status: Status)
    requires fs.Ready()
    modifies fs.device
    ensures old(fs.device.log) <= fs.device.log
    ensures fs.device.sectors == Apply(old(fs.device.sectors), fs.device.Since(|old(fs.device.log)|))
    ensures status != NoSpace
    ensures ZeroOps(fs.device.Since(|old(fs.device.log)|), firstBlock, blockCount)
    ensures status == Ok ==>
      ZeroProgress(old(fs.device.sectors), fs.device.Since(|old(fs.device.log)|), firstBlock, blockCount, blockCount)
    ensures status == Ok ==> fs.device.log != old(fs.device.log) && Settled(fs.device.log)
    ensures status == Ok ==> blockCount * 512 <= UINT64_MAX
    ensures status in {Ok, BlockDeviceError, ExtentStatus(fs.geometry, old(fs.device.sectors), firstBlock, blockCount)}
    ensures fs.device.reliable && ExtentStatus(fs.geometry, old(fs.device.sectors), firstBlock, blockCount) == Ok ==>
      status == Ok
  {
    hide AllAllocated, Zeroed, Apply;
    ghost var d0, n := fs.device.sectors, |fs.device.log|;
    assert fs.device.Since(n) == [];
    ApplyNothing(d0);
    ZeroProgressStart(d0, firstBlock, blockCount);
    var capacity: U64;
    status, capacity := ValidateAllocatedExtent(fs, firstBlock, blockCount);
    if status != Ok {
      return;
    }
    var index := 0;
    while index < blockCount
      invariant 0 <= index <= blockCount
      invariant old(fs.device.log) <= fs.device.log
      invariant fs.device.sectors == Apply(d0, fs.device.Since(n))
      invariant ZeroProgress(d0, fs.device.Since(n), firstBlock, blockCount, index)
    {
      var zero, block := ZeroSector(), AddU64(firstBlock, index);
      if block.Failure? {
        return ArithmeticOverflow;
      }
      ZeroProgressStep(d0, fs.device.Since(n), firstBlock, blockCount, index, zero);
      status := WriteOne(fs, d0, n, block.value, zero);
      if status != Ok {
        return;
      }
      index := index + 1;
    }
    ZeroProgressFlush(d0, fs.device.Since(n), firstBlock, blockCount);
    status := FlushAll(fs, d0, n);
  }

  // ----- Allocation -----

  datatype Extent = Extent(first: nat, count: nat)

  /** A completed allocation: lowest fit in d0, marked, cleared and durable. */
  ghost predicate Issued(g: Geometry, d0: Disk, ops: seq<Op>, e: Extent) {
    && e.count > 0 && e.count * 512 <= UINT64_MAX
    && FirstFit(g, d0, e.first, e.count)
    && AllAllocated(g, Apply(d0, ops), e.first, e.count)
    && BitsAdded(g, d0, Apply(d0, ops), e.first, e.first + e.count)
    && ZeroSectors(Apply(d0, ops), e.first, e.count)
    && ops != [] && Settled(ops)
  }

  ghost predicate ZeroSectors(d: Disk, first: nat, count: nat) {
    forall b :: first <= b < first + count && b < |d| ==> IsZero(d[b])
  }

  /** What one call does: whatever happens it only grows the allocation; success issues an extent. */
  ghost predicate AllocateSpec(g: Geometry, d0: Disk, ops: seq<Op>, result: Result<Extent>) {
    GrowOps(g, d0, ops) && (result.Success? ==> Issued(g, d0, ops, result.value))
  }

  method AllocateBlocks(fs: FileSystem, blockCount: U64) returns (status: Status, firstBlock: U64)
    requires fs.Ready()
    modifies fs.device
    ensures old(fs.device.log) <= fs.device.log
    ensures fs.device.sectors == Apply(old(fs.device.sectors), fs.device.Since(|old(fs.device.log)|))
    ensures AllocateSpec(
      fs.geometry, old(fs.device.sectors), fs.device.Since(|old(fs.device.log)|),
      if status == Ok then Success(Extent(firstBlock, blockCount)) else Failure(status))
    ensures blockCount == 0 ==> status == InvalidArgument
    ensures blockCount != 0 && !fs.mounted ==> status == NotMounted
    ensures status == NoSpace ==> forall s: nat :: !FreeRun(fs.geometry, old(fs.device.sectors), s, blockCount)
    ensures fs.device.reliable && fs.mounted && 0 < blockCount && blockCount * 512 <= UINT64_MAX ==>
      status == Ok || status == NoSpace
    ensures status !in {Ok, BlockDeviceError, ArithmeticOverflow} ==> fs.device.log == old(fs.device.log)
  {
    hide Allocated, BitsAdded, Apply, GrowOp, ZeroOps, Zeroed, ExtentStatus;
    var g := fs.geometry;
    ghost var d0, n := fs.device.sectors, |fs.device.log|;
    firstBlock := 0;
    ApplyNothing(d0);
    assert fs.device.Since(n) == [];
    if blockCount == 0 {
      return InvalidArgument, 0;
    }
    if !fs.mounted {
      return NotMounted, 0;
    }
    if blockCount > g.totalBlocks - g.dataStart {
      return NoSpace, 0;
    }
    var first: U64;
    status, first := FindFreeExtent(fs, blockCount);
    if status != Ok {
      return;
    }
    status := PublishExtentAllocation(fs, first, blockCount);
    if status != Ok {
      return;
    }
    ghost var published, n1 := fs.device.Since(n), |fs.device.log|;
    MarkedIsOwned(g, d0, fs.device.sectors, first, blockCount);
    status := ZeroExtent(fs, first, blockCount);
    assert fs.device.log[n..n1] == published;
    Sequence(d0, fs.device.log, n, n1);
    AllocationComplete(g, d0, fs.device.log[n..n1], fs.device.log[n1..], first, blockCount, status);
    if status != Ok {
      return;
    }
    firstBlock := first;
  }

  lemma MarkedIsOwned(g: Geometry, d0: Disk, d: Disk, first: U64, count: U64)
    requires g.Valid(|d0|) && Marked(g, d0, d, first, first + count) && FreeRun(g, d0, first, count)
    ensures 0 < count ==>
      ExtentStatus(g, d, first, count) == if count * 512 <= UINT64_MAX then Ok else ArithmeticOverflow
  {
    hide SectorBit;
    forall y | first <= y < first + count ensures Allocated(g, d, y) {
      BitmapIndex(g, y);
    }
  }

  /** The operations accepted in two consecutive stretches, seen as one. */
  lemma Sequence(d0: Disk, log: seq<Op>, n: nat, n1: nat)
    requires n <= n1 <= |log|
    ensures log[n..] == log[n..n1] + log[n1..]
    ensures Apply(d0, log[n..]) == Apply(Apply(d0, log[n..n1]), log[n1..])
  {
    assert log[n..] == log[n..n1] + log[n1..];
    ApplyConcat(d0, log[n..n1], log[n1..]);
  }

  lemma AllocationComplete(
    g: Geometry, d0: Disk, publish: seq<Op>, zero: seq<Op>, first: nat, count: nat, status: Status)
    requires g.Valid(|d0|) && count > 0
    requires FirstFit(g, d0, first, count)
    requires GrowOps(g, d0, publish)
    requires Marked(g, d0, Apply(d0, publish), first, first + count)
    requires ZeroOps(zero, first, count)
    requires status == Ok ==>
      && count * 512 <= UINT64_MAX
      && zero != [] && Settled(zero)
      && Zeroed(Apply(d0, publish), Apply(Apply(d0, publish), zero), first, first + count)
    ensures AllocateSpec(
      g, d0, publish + zero, if status == Ok then Success(Extent(first, count)) else Failure(status))
  {
    ApplyConcat(d0, publish, zero);
    GrowConcat(g, d0, publish, zero, first, count);
    if status == Ok {
      ZeroedKeepsBits(g, d0, Apply(d0, publish), Apply(Apply(d0, publish), zero), first, count);
    }
  }

  lemma GrowConcat(g: Geometry, d0: Disk, publish: seq<Op>, zero: seq<Op>, first: nat, count: nat)
    requires g.Valid(|d0|) && FreeRun(g, d0, first, count)
    requires GrowOps(g, d0, publish) && ZeroOps(zero, first, count)
    ensures GrowOps(g, d0, publish + zero)
  {
  }

  lemma ZeroedKeepsBits(g: Geometry, d0: Disk, d: Disk, d': Disk, first: nat, count: nat)
    requires g.Valid(|d|) && |d| == |d0| && g.dataStart <= first && first + count <= g.totalBlocks
    requires BitsAdded(g, d0, d, first, first + count)
    requires Zeroed(d, d', first, first + count)
    ensures AllAllocated(g, d', first, count) && ZeroSectors(d', first, count)
    ensures BitsAdded(g, d0, d', first, first + count)
  {
    hide SectorBit, IsZero;
    forall y: nat | y < g.bitmapBlocks * 4096
      ensures Allocated(g, d', y) <==> Allocated(g, d0, y) || first <= y < first + count
    {
      assert Allocated(g, d, y) <==> Allocated(g, d0, y) || first <= y < first + count;
    }
    forall y | first <= y < first + count ensures Allocated(g, d', y) {
      BitmapIndex(g, y);
    }
  }
}
