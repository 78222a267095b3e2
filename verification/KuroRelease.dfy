/** Giving extents back: the bits of their blocks, and no others, are cleared. */
module KuroRelease {
  import opened Bytes
  import opened KuroDisk
  import opened KuroBitmap
  import opened KuroAlloc

  /** b with bit i cleared. */
  function ClearBit(b: nat, i: nat): (r: nat)
    ensures r <= b
  {
    if i == 0 then 2 * (b / 2) else 2 * ClearBit(b / 2, i - 1) + b % 2
  }

  lemma {:induction false} ClearBitBits(b: nat, i: nat, j: nat)
    ensures Bit(ClearBit(b, i), j) <==> j != i && Bit(b, j)
  {
    if i != 0 && j != 0 {
      ClearBitBits(b / 2, i - 1, j - 1);
    }
  }

  function UnmarkBit(s: Sector, block: nat): (r: Sector)
    ensures forall y: nat :: SectorBit(r, y) <==> SectorBit(s, y) && y % 4096 != block % 4096
  {
    var bit := block % 4096;
    var byte := s[bit / 8];
    var r: Sector := s[bit / 8 := ClearBit(byte, bit % 8)];
    assert forall y: nat :: SectorBit(r, y) <==> SectorBit(s, y) && y % 4096 != bit by {
      forall y: nat ensures SectorBit(r, y) <==> SectorBit(s, y) && y % 4096 != bit {
        ClearBitBits(byte, bit % 8, (y % 4096) % 8);
      }
    }
    r
  }

  /** Of the bits of the blocks [from / 4096 * 4096, ..) exactly those of [from, to) were cleared. */
  ghost predicate SegmentCleared(before: Sector, after: Sector, from: nat, to: nat) {
    forall y: nat :: y / 4096 == from / 4096 ==>
      (SectorBit(after, y) <==> SectorBit(before, y) && !(from <= y < to))
  }

  method ClearSegment(before: Sector, from: nat, to: nat) returns (bitmap: Sector)
    requires from <= to <= (from / 4096 + 1) * 4096
    ensures SegmentCleared(before, bitmap, from, to)
  {
    hide SectorBit;
    bitmap := before;
    var block := from;
    while block < to
      invariant from <= block <= to
      invariant SegmentCleared(before, bitmap, from, block)
    {
      bitmap := UnmarkBit(bitmap, block);
      block := block + 1;
    }
  }

  // ----- What a release may do, however it is cut short -----

  /** A bitmap write that sets no bit and clears none outside [first, last). */
  ghost predicate ClearOp(g: Geometry, d0: Disk, op: Op, first: nat, last: nat) {
    op.Write? ==>
      && op.block < |d0| && g.InBitmap(op.block)
      && forall y: nat :: y / 4096 == op.block - g.bitmapStart ==>
           && (SectorBit(op.data, y) ==> SectorBit(d0[op.block], y))
           && (SectorBit(d0[op.block], y) && !(first <= y < last) ==> SectorBit(op.data, y))
  }

  ghost predicate ClearOps(g: Geometry, d0: Disk, ops: seq<Op>, first: nat, last: nat) {
    forall i :: 0 <= i < |ops| ==> ClearOp(g, d0, ops[i], first, last)
  }

  /** d differs from d0 only in that some blocks of [first, last) are no longer allocated. */
  ghost predicate OnlyReleased(g: Geometry, d0: Disk, d: Disk, first: nat, last: nat) {
    && |d| == |d0|
    && (forall b :: 0 <= b < |d0| && !g.InBitmap(b) ==> d[b] == d0[b])
    && (forall y: nat :: y < g.bitmapBlocks * 4096 ==>
          && (Allocated(g, d, y) ==> Allocated(g, d0, y))
          && (Allocated(g, d0, y) && !(first <= y < last) ==> Allocated(g, d, y)))
  }

  lemma ClearOpKeeps(g: Geometry, d0: Disk, d: Disk, op: Op, first: nat, last: nat)
    requires g.Valid(|d0|) && OnlyReleased(g, d0, d, first, last) && ClearOp(g, d0, op, first, last)
    ensures OnlyReleased(g, d0, ApplyOp(d, op), first, last)
  {
    hide SectorBit;
  }

  lemma ReleaseCut(g: Geometry, d0: Disk, ops: seq<Op>, first: nat, last: nat, d: Disk)
    requires g.Valid(|d0|) && ClearOps(g, d0, ops, first, last)
    requires CrashPoint(d0, ops, d)
    ensures OnlyReleased(g, d0, d, first, last)
  {
    hide ClearOp, CrashPoint;
    assert OnlyReleased(g, d0, d0, first, last);
    var P := (e: Disk) => OnlyReleased(g, d0, e, first, last);
    hide OnlyReleased;
    forall e: Disk, i | 0 <= i < |ops| && P(e) ensures P(ApplyOp(e, ops[i])) {
      ClearOpKeeps(g, d0, e, ops[i], first, last);
    }
    CrashPointInvariant(d0, ops, P, d);
  }

  // ----- The operation -----

  /** The bits of [first, upTo) are clear and all others as in d0. */
  ghost predicate Cleared(g: Geometry, d0: Disk, d: Disk, first: nat, upTo: nat) {
    && |d| == |d0|
    && forall y: nat :: y < g.bitmapBlocks * 4096 ==>
         (Allocated(g, d, y) <==> Allocated(g, d0, y) && !(first <= y < upTo))
  }

  lemma SegmentReleased(g: Geometry, d0: Disk, d: Disk, bitmap: Sector, first: nat, current: nat, end: nat)
    requires g.Valid(|d0|) && current < g.totalBlocks
    requires Cleared(g, d0, d, first, current)
    requires first <= current <= end <= (current / 4096 + 1) * 4096
    requires SegmentCleared(d[g.bitmapStart + current / 4096], bitmap, current, end)
    ensures
      var op := Op.Write(g.bitmapStart + current / 4096, bitmap);
      && Cleared(g, d0, ApplyOp(d, op), first, end)
      && ClearOp(g, d0, op, first, end)
  {
    hide SectorBit;
    var index := current / 4096;
    var op := Op.Write(g.bitmapStart + index, bitmap);
    BitmapIndex(g, current);
    forall y: nat | y < g.bitmapBlocks * 4096
      ensures Allocated(g, ApplyOp(d, op), y) <==> Allocated(g, d0, y) && !(first <= y < end)
    {
      assert Allocated(g, d, y) <==> Allocated(g, d0, y) && !(first <= y < current);
    }
    forall y: nat | y / 4096 == index
      ensures SectorBit(bitmap, y) ==> SectorBit(d0[op.block], y)
      ensures SectorBit(d0[op.block], y) && !(first <= y < end) ==> SectorBit(bitmap, y)
    {
      assert Allocated(g, d, y) <==> Allocated(g, d0, y) && !(first <= y < current);
    }
  }

  lemma ClearOpsWiden(g: Geometry, d0: Disk, ops: seq<Op>, first: nat, end: nat, last: nat)
    requires ClearOps(g, d0, ops, first, end) && end <= last
    ensures ClearOps(g, d0, ops, first, last)
  {
    hide SectorBit;
  }

  method ReleaseExtent(fs: FileSystem, firstBlock: U64, blockCount: U64) returns (status: Status)
    requires fs.Ready()
    modifies fs.device
    ensures old(fs.device.log) <= fs.device.log
    ensures fs.device.sectors == Apply(old(fs.device.sectors), fs.device.Since(|old(fs.device.log)|))
    ensures ClearOps(
      fs.geometry, old(fs.device.sectors), fs.device.Since(|old(fs.device.log)|), firstBlock, firstBlock + blockCount)
    ensures blockCount == 0 ==> status == InvalidArgument
    ensures fs.device.log != old(fs.device.log) || status == Ok ==>
      blockCount != 0 && ExtentStatus(fs.geometry, old(fs.device.sectors), firstBlock, blockCount) == Ok
    ensures status == Ok ==>
      && Flushed(fs.device.Since(|old(fs.device.log)|))
      && Cleared(fs.geometry, old(fs.device.sectors), fs.device.sectors, firstBlock, firstBlock + blockCount)
    ensures blockCount != 0 && ExtentStatus(fs.geometry, old(fs.device.sectors), firstBlock, blockCount) == Ok ==>
      status in {Ok, BlockDeviceError} && (fs.device.reliable ==> status == Ok)
  {
    hide Allocated, SectorBit, Apply, AllAllocated;
    var g := fs.geometry;
    ghost var d0, n := fs.device.sectors, |fs.device.log|;
    ApplyNothing(d0);
    assert fs.device.Since(n) == [];
    if blockCount == 0 {
      return InvalidArgument;
    }
    var capacity: U64;
    status, capacity := ValidateAllocatedExtent(fs, firstBlock, blockCount);
    if status != Ok {
      return;
    }
    var endBlock := AddU64(firstBlock, blockCount);
    if endBlock.Failure? {
      return ArithmeticOverflow;
    }
    var current: nat := firstBlock;
    while current < endBlock.value
      invariant firstBlock <= current <= endBlock.value
      invariant old(fs.device.log) <= fs.device.log
      invariant fs.device.sectors == Apply(d0, fs.device.Since(n))
      invariant ClearOps(g, d0, fs.device.Since(n), firstBlock, endBlock.value)
      invariant Cleared(g, d0, fs.device.sectors, firstBlock, current)
    {
      status, current := ReleaseSegment(fs, d0, n, firstBlock, current, endBlock.value);
      if status != Ok {
        return;
      }
    }
    status := FlushAll(fs, d0, n);
  }

  /** Clears the part of [current, endBlock) that one bitmap sector represents. */
  method ReleaseSegment(fs: FileSystem, ghost d0: Disk, ghost n: nat, ghost first: nat, current: nat, endBlock: nat)
    returns (status: Status, segmentEnd: nat)
    requires fs.geometry.Valid(|d0|) && |fs.device.sectors| == |d0|
    requires first <= current < endBlock <= fs.geometry.totalBlocks
    requires n <= |fs.device.log| && fs.device.sectors == Apply(d0, fs.device.Since(n))
    requires ClearOps(fs.geometry, d0, fs.device.Since(n), first, endBlock)
    requires Cleared(fs.geometry, d0, fs.device.sectors, first, current)
    modifies fs.device
    ensures old(fs.device.log) <= fs.device.log
    ensures fs.device.sectors == Apply(d0, fs.device.Since(n))
    ensures current < segmentEnd <= endBlock
    ensures ClearOps(fs.geometry, d0, fs.device.Since(n), first, endBlock)
    ensures status == Ok ==> Cleared(fs.geometry, d0, fs.device.sectors, first, segmentEnd)
    ensures status in {Ok, BlockDeviceError} && (fs.device.reliable ==> status == Ok)
  {
    hide Allocated, SectorBit, Apply, ClearOp, Cleared;
    var g := fs.geometry;
    var bitmapIndex := current / 4096;
    var representedEnd := (bitmapIndex + 1) * 4096;
    segmentEnd := if endBlock < representedEnd then endBlock else representedEnd;
    BitmapIndex(g, current);
    var bitmap: Sector;
    status, bitmap := fs.device.Read(g.bitmapStart + bitmapIndex);
    if status != Ok {
      return;
    }
    var cleared := ClearSegment(bitmap, current, segmentEnd);
    ghost var ops, op := fs.device.Since(n), Op.Write(g.bitmapStart + bitmapIndex, cleared);
    SegmentReleased(g, d0, fs.device.sectors, cleared, first, current, segmentEnd);
    ClearOpsWiden(g, d0, [op], first, segmentEnd, endBlock);
    assert ClearOp(g, d0, [op][0], first, endBlock);
    ApplyOneMore(d0, ops, op);
    status := WriteOne(fs, d0, n, g.bitmapStart + bitmapIndex, cleared);
  }

  // ----- Releasing two extents -----

  datatype Two = Two(a: nat, an: nat, b: nat, bn: nat)
  {
    predicate Has(y: nat) {
      a <= y < a + an || b <= y < b + bn
    }

    /** Neither extent meets [first, first + count). */
    predicate Spares(first: nat, count: nat) {
      && (an == 0 || a + an <= first || first + count <= a)
      && (bn == 0 || b + bn <= first || first + count <= b)
    }
  }

  /** A bitmap write that clears no bit outside the two extents. */
  ghost predicate FreeOp(g: Geometry, d0: Disk, op: Op, x: Two) {
    op.Write? ==>
      && op.block < |d0| && g.InBitmap(op.block)
      && forall y: nat :: y / 4096 == op.block - g.bitmapStart && SectorBit(d0[op.block], y)
           ==> SectorBit(op.data, y) || x.Has(y)
  }

  ghost predicate FreeOps(g: Geometry, d0: Disk, ops: seq<Op>, x: Two) {
    forall i :: 0 <= i < |ops| ==> FreeOp(g, d0, ops[i], x)
  }

  /** Only bits of the two extents may be missing; every other sector is as it was. */
  ghost predicate OnlyFreed(g: Geometry, d0: Disk, d: Disk, x: Two) {
    && |d| == |d0|
    && (forall k :: 0 <= k < |d0| && !g.InBitmap(k) ==> d[k] == d0[k])
    && (forall y: nat :: y < g.bitmapBlocks * 4096 && Allocated(g, d0, y)
          ==> Allocated(g, d, y) || x.Has(y))
  }

  lemma FreeOpKeeps(g: Geometry, d0: Disk, d: Disk, op: Op, x: Two)
    requires g.Valid(|d0|) && OnlyFreed(g, d0, d, x) && FreeOp(g, d0, op, x)
    ensures OnlyFreed(g, d0, ApplyOp(d, op), x)
  {
    hide SectorBit;
  }

  lemma FreeCut(g: Geometry, d0: Disk, ops: seq<Op>, x: Two, d: Disk)
    requires g.Valid(|d0|) && FreeOps(g, d0, ops, x) && CrashPoint(d0, ops, d)
    ensures OnlyFreed(g, d0, d, x)
  {
    hide FreeOp, CrashPoint;
    assert OnlyFreed(g, d0, d0, x);
    var P := (e: Disk) => OnlyFreed(g, d0, e, x);
    hide OnlyFreed;
    forall e: Disk, i | 0 <= i < |ops| && P(e) ensures P(ApplyOp(e, ops[i])) {
      FreeOpKeeps(g, d0, e, ops[i], x);
    }
    CrashPointInvariant(d0, ops, P, d);
  }

  lemma ClearIsFree(g: Geometry, d0: Disk, d: Disk, ops: seq<Op>, x: Two, first: nat, last: nat)
    requires g.Valid(|d0|) && OnlyFreed(g, d0, d, x) && ClearOps(g, d, ops, first, last)
    requires (first == x.a && last == x.a + x.an) || (first == x.b && last == x.b + x.bn)
    ensures FreeOps(g, d0, ops, x)
  {
    hide SectorBit;
    forall i | 0 <= i < |ops| ensures FreeOp(g, d0, ops[i], x) {
      var op := ops[i];
      assert ClearOp(g, d, op, first, last);
      if op.Write? {
        forall y: nat | y / 4096 == op.block - g.bitmapStart && SectorBit(d0[op.block], y)
          ensures SectorBit(op.data, y) || x.Has(y)
        {
          assert Allocated(g, d0, y);
        }
      }
    }
  }

  method ReleaseMoveExtent(fs: FileSystem, firstBlock: U64, blockCount: U64) returns (status: Status)
    requires fs.Ready()
    modifies fs.device
    ensures old(fs.device.log) <= fs.device.log
    ensures fs.device.sectors == Apply(old(fs.device.sectors), fs.device.Since(|old(fs.device.log)|))
    ensures ClearOps(
      fs.geometry, old(fs.device.sectors), fs.device.Since(|old(fs.device.log)|), firstBlock, firstBlock + blockCount)
    ensures status == Ok ==>
      && Settled(fs.device.Since(|old(fs.device.log)|))
      && Cleared(fs.geometry, old(fs.device.sectors), fs.device.sectors, firstBlock, firstBlock + blockCount)
    ensures blockCount == 0 ==> fs.device.log == old(fs.device.log)
    ensures blockCount == 0 || ExtentStatus(fs.geometry, old(fs.device.sectors), firstBlock, blockCount) == Ok ==>
      status in {Ok, BlockDeviceError} && (fs.device.reliable ==> status == Ok)
  {
    hide Apply, SectorBit;
    ApplyNothing(fs.device.sectors);
    assert fs.device.Since(|fs.device.log|) == [];
    if blockCount == 0 {
      return Ok;
    }
    status := ReleaseExtent(fs, firstBlock, blockCount);
  }

  /** Releases one extent, then the other. */
  method ReleasePair(fs: FileSystem, a: U64, an: U64, b: U64, bn: U64) returns (status: Status)
    requires fs.Ready()
    modifies fs.device
    ensures old(fs.device.log) <= fs.device.log
    ensures fs.device.sectors == Apply(old(fs.device.sectors), fs.device.Since(|old(fs.device.log)|))
    ensures FreeOps(fs.geometry, old(fs.device.sectors), fs.device.Since(|old(fs.device.log)|), Two(a, an, b, bn))
    ensures status == Ok ==>
      && Settled(fs.device.Since(|old(fs.device.log)|))
      && GivenBack(fs.geometry, old(fs.device.sectors), fs.device.sectors, Two(a, an, b, bn))
    ensures fs.device.reliable && Releasable(fs.geometry, old(fs.device.sectors), a, an, b, bn) ==> status == Ok
  {
    hide Apply, ClearOps, OnlyFreed, FreeOps, ExtentStatus, Cleared, GivenBack;
    ghost var g, d0, n := fs.geometry, fs.device.sectors, |fs.device.log|;
    assert OnlyFreed(g, d0, d0, Two(a, an, b, bn)) by { NothingFreed(g, d0, Two(a, an, b, bn)); }
    status := ReleaseMoveExtent(fs, a, an);
    ghost var ops, n1, d1 := fs.device.Since(n), |fs.device.log|, fs.device.sectors;
    ClearIsFree(g, d0, d0, ops, Two(a, an, b, bn), a, a + an);
    if status != Ok {
      return;
    }
    FreeApply(g, d0, ops, Two(a, an, b, bn));
    StillReleasable(g, d0, ops, a, an, b, bn);
    status := ReleaseMoveExtent(fs, b, bn);
    Sequence(d0, fs.device.log, n, n1);
    assert fs.device.log[n..n1] == ops;
    ClearIsFree(g, d0, d1, fs.device.Since(n1), Two(a, an, b, bn), b, b + bn);
    FreeJoin(g, d0, ops, fs.device.Since(n1), Two(a, an, b, bn));
    if status == Ok {
      ClearedBoth(g, d0, d1, fs.device.sectors, a, an, b, bn);
    }
  }

  /** The bits of the two extents are clear and all others as in d0. */
  ghost predicate GivenBack(g: Geometry, d0: Disk, d: Disk, x: Two) {
    forall y: nat :: y < g.bitmapBlocks * 4096 ==> (Allocated(g, d, y) <==> Allocated(g, d0, y) && !x.Has(y))
  }

  lemma ClearedBoth(g: Geometry, d0: Disk, d1: Disk, d: Disk, a: nat, an: nat, b: nat, bn: nat)
    requires Cleared(g, d0, d1, a, a + an) && Cleared(g, d1, d, b, b + bn)
    ensures GivenBack(g, d0, d, Two(a, an, b, bn))
  {
    hide Allocated;
  }

  /** The bits of the two extents are set and all others as in d0. */
  ghost predicate TakenUp(g: Geometry, d0: Disk, d: Disk, x: Two) {
    forall y: nat :: y < g.bitmapBlocks * 4096 ==> (Allocated(g, d, y) <==> Allocated(g, d0, y) || x.Has(y))
  }

  /** The same blocks are allocated. */
  ghost predicate SameBits(g: Geometry, d0: Disk, d: Disk) {
    forall y: nat :: y < g.bitmapBlocks * 4096 ==> (Allocated(g, d, y) <==> Allocated(g, d0, y))
  }

  lemma SameBitsTrans(g: Geometry, a: Disk, b: Disk, c: Disk)
    requires SameBits(g, a, b) && SameBits(g, b, c)
    ensures SameBits(g, a, c)
  {
    hide Allocated;
  }

  /** A write below the bitmap. */
  predicate LowOp(g: Geometry, op: Op) {
    op.Write? ==> op.block < g.bitmapStart
  }

  /** Writes below the bitmap change no bit. */
  lemma {:induction false} LowBits(g: Geometry, d: Disk, ops: seq<Op>)
    requires g.Valid(|d|) && forall i :: 0 <= i < |ops| ==> LowOp(g, ops[i])
    ensures SameBits(g, d, Apply(d, ops))
  {
    hide SectorBit;
    if ops != [] {
      var n := |ops| - 1;
      assert LowOp(g, ops[n]);
      LowBits(g, d, ops[..n]);
    }
  }

  /** Both extents are allocated, or empty, and do not meet. */
  ghost predicate Releasable(g: Geometry, d: Disk, a: U64, an: U64, b: U64, bn: U64) {
    && (an == 0 || ExtentStatus(g, d, a, an) == Ok) && (bn == 0 || ExtentStatus(g, d, b, bn) == Ok)
    && (an == 0 || bn == 0 || a + an <= b || b + bn <= a)
  }

  lemma NothingFreed(g: Geometry, d: Disk, x: Two)
    ensures OnlyFreed(g, d, d, x)
  {
  }

  lemma FreeJoin(g: Geometry, d0: Disk, ops: seq<Op>, more: seq<Op>, x: Two)
    requires FreeOps(g, d0, ops, x) && FreeOps(g, d0, more, x)
    ensures FreeOps(g, d0, ops + more, x)
  {
    hide FreeOp;
  }

  lemma FreeApply(g: Geometry, d0: Disk, ops: seq<Op>, x: Two)
    requires g.Valid(|d0|) && FreeOps(g, d0, ops, x)
    ensures OnlyFreed(g, d0, Apply(d0, ops), x)
  {
    hide FreeOps;
    NowIsCrashPoint(d0, ops);
    FreeCut(g, d0, ops, x, Apply(d0, ops));
  }

  lemma StillReleasable(g: Geometry, d0: Disk, x: seq<Op>, a: U64, an: U64, b: U64, bn: U64)
    requires g.Valid(|d0|) && ClearOps(g, d0, x, a, a + an)
    ensures Releasable(g, d0, a, an, b, bn) && bn != 0 ==> ExtentStatus(g, Apply(d0, x), b, bn) == Ok
  {
    hide ClearOp, CrashPoint, ExtentStatus, FreeOp, FreeOps;
    if Releasable(g, d0, a, an, b, bn) && bn != 0 {
      NowIsCrashPoint(d0, x);
      ReleaseCut(g, d0, x, a, a + an, Apply(d0, x));
      KeptExtent(g, d0, Apply(d0, x), a, an, b, bn);
    }
  }

  lemma KeptExtent(g: Geometry, d0: Disk, d: Disk, a: U64, an: U64, b: U64, bn: U64)
    requires g.Valid(|d0|) && OnlyReleased(g, d0, d, a, a + an) && ExtentStatus(g, d0, b, bn) == Ok && bn != 0
    requires an == 0 || a + an <= b || b + bn <= a
    ensures ExtentStatus(g, d, b, bn) == Ok
  {
    hide Allocated;
    forall y | b <= y < b + bn ensures Allocated(g, d, y) {
      BitmapIndex(g, y);
    }
  }
}
