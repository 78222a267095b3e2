/**
 Volume geometry, the allocation bitmap and the relation every allocation
 keeps with the contents it started from.
 */
module KuroBitmap {
  import opened Bytes
  import opened KuroDisk

  function DivideRoundUp(value: nat, divisor: nat): nat
    requires divisor > 0
  {
    value / divisor + (if value % divisor == 0 then 0 else 1)
  }

  function AddU64(left: U64, right: U64): (r: Result<U64>)
  {
    if right > UINT64_MAX - left then Failure(ArithmeticOverflow) else Success(left + right)
  }

  datatype Geometry = Geometry(
    totalBlocks: U64,
    inodeCount: U32,
    inodeTableStart: U64,
    inodeTableBlocks: U64,
    bitmapStart: U64,
    bitmapBlocks: U64,
    dataStart: U64)
  {
    /** What mounting demands of a superblock on a device with the given sector count. */
    predicate Valid(sectorCount: nat) {
      && totalBlocks == sectorCount
      && inodeCount != 0
      && inodeTableStart == 2
      && inodeTableBlocks == DivideRoundUp(inodeCount * 128, 512)
      && bitmapStart == 2 + inodeTableBlocks
      && bitmapBlocks == DivideRoundUp(totalBlocks, 4096)
      && dataStart == bitmapStart + bitmapBlocks
      && dataStart < totalBlocks
    }

    predicate InBitmap(block: int) {
      bitmapStart <= block < bitmapStart + bitmapBlocks
    }

    predicate InInodeTable(block: int) {
      inodeTableStart <= block < inodeTableStart + inodeTableBlocks
    }
  }

  // ----- Bits -----

  /** Bit i of b. */
  predicate Bit(b: nat, i: nat) {
    if i == 0 then b % 2 == 1 else Bit(b / 2, i - 1)
  }

  /** b with bit i set. */
  function SetBit(b: nat, i: nat): nat {
    if i == 0 then 2 * (b / 2) + 1 else 2 * SetBit(b / 2, i - 1) + b % 2
  }

  lemma {:induction false} SetBitBits(b: nat, i: nat, j: nat)
    ensures Bit(SetBit(b, i), j) <==> j == i || Bit(b, j)
  {
    if i != 0 && j != 0 {
      SetBitBits(b / 2, i - 1, j - 1);
    }
  }

  function Pow2(n: nat): (p: nat) {
    if n == 0 then 1 else 2 * Pow2(n - 1)
  }

  lemma {:induction false} SetBitBound(b: nat, i: nat, n: nat)
    requires b < Pow2(n) && i < n
    ensures SetBit(b, i) < Pow2(n)
  {
    assert Pow2(n) == 2 * Pow2(n - 1);
    if i != 0 {
      SetBitBound(b / 2, i - 1, n - 1);
      assert SetBit(b, i) == 2 * SetBit(b / 2, i - 1) + b % 2;
    }
  }

  /** The bit for a block in the bitmap sector that represents it. */
  predicate SectorBit(s: Sector, block: nat) {
    Bit(s[(block % 4096) / 8], (block % 4096) % 8)
  }

  function MarkBit(s: Sector, block: nat): (r: Sector)
    ensures forall y: nat :: SectorBit(r, y) <==> SectorBit(s, y) || y % 4096 == block % 4096
  {
    var bit := block % 4096;
    var byte := s[bit / 8];
    assert SetBit(byte, bit % 8) < 256 by {
      assert Pow2(4) == 16;
      assert Pow2(8) == 256;
      SetBitBound(byte, bit % 8, 8);
    }
    var r: Sector := s[bit / 8 := SetBit(byte, bit % 8)];
    assert forall y: nat :: SectorBit(r, y) <==> SectorBit(s, y) || y % 4096 == bit by {
      forall y: nat ensures SectorBit(r, y) <==> SectorBit(s, y) || y % 4096 == bit {
        SetBitBits(byte, bit % 8, (y % 4096) % 8);
      }
    }
    r
  }

  predicate Allocated(g: Geometry, d: Disk, block: nat) {
    g.bitmapStart + block / 4096 < |d| && SectorBit(d[g.bitmapStart + block / 4096], block)
  }

  // ----- Extents -----

  ghost predicate AllAllocated(g: Geometry, d: Disk, first: nat, count: nat) {
    forall y :: first <= y < first + count ==> Allocated(g, d, y)
  }

  ghost predicate FreeRun(g: Geometry, d: Disk, first: nat, count: nat) {
    && g.dataStart <= first
    && first + count <= g.totalBlocks
    && forall y :: first <= y < first + count ==> !Allocated(g, d, y)
  }

  /** The lowest run of count free data blocks. */
  ghost predicate FirstFit(g: Geometry, d: Disk, first: nat, count: nat) {
    && FreeRun(g, d, first, count)
    && forall s: nat :: s < first ==> !FreeRun(g, d, s, count)
  }

  // ----- What an allocation may do to the device, however it is cut short -----

  /** Bits are only ever set, and no sector changes except bitmap sectors and free data sectors. */
  ghost predicate OnlyGrew(g: Geometry, d0: Disk, d: Disk) {
    && |d| == |d0|
    && (forall y: nat :: y < g.bitmapBlocks * 4096 && Allocated(g, d0, y) ==> Allocated(g, d, y))
    && (forall b :: 0 <= b < |d0| && !g.InBitmap(b) && (b < g.dataStart || Allocated(g, d0, b))
          ==> d[b] == d0[b])
  }

  ghost predicate GrowOp(g: Geometry, d0: Disk, op: Op) {
    op.Write? ==>
      && op.block < |d0|
      && if g.InBitmap(op.block)
         then forall y: nat :: SectorBit(d0[op.block], y) ==> SectorBit(op.data, y)
         else op.block >= g.dataStart && !Allocated(g, d0, op.block)
  }

  ghost predicate GrowOps(g: Geometry, d0: Disk, ops: seq<Op>) {
    forall i :: 0 <= i < |ops| ==> GrowOp(g, d0, ops[i])
  }

  lemma GrowOpKeeps(g: Geometry, d0: Disk, d: Disk, op: Op)
    requires g.Valid(|d0|)
    requires OnlyGrew(g, d0, d)
    requires GrowOp(g, d0, op)
    ensures OnlyGrew(g, d0, ApplyOp(d, op))
  {
  }

  lemma BitmapIndex(g: Geometry, y: nat)
    requires g.Valid(g.totalBlocks)
    requires y < g.totalBlocks
    ensures y / 4096 < g.bitmapBlocks
    ensures g.InBitmap(g.bitmapStart + y / 4096)
  {
  }

  lemma GrowCrash(g: Geometry, d0: Disk, ops: seq<Op>, d: Disk)
    requires g.Valid(|d0|)
    requires GrowOps(g, d0, ops)
    requires CrashPoint(d0, ops, d)
    ensures OnlyGrew(g, d0, d)
  {
    var P := (e: Disk) => OnlyGrew(g, d0, e);
    forall e: Disk, i | 0 <= i < |ops| && P(e) ensures P(ApplyOp(e, ops[i])) {
      GrowOpKeeps(g, d0, e, ops[i]);
    }
    CrashPointInvariant(d0, ops, P, d);
  }

  lemma GrowApply(g: Geometry, d0: Disk, ops: seq<Op>)
    requires g.Valid(|d0|)
    requires GrowOps(g, d0, ops)
    ensures OnlyGrew(g, d0, Apply(d0, ops))
  {
    var P := (e: Disk) => OnlyGrew(g, d0, e);
    forall e: Disk, i | 0 <= i < |ops| && P(e) ensures P(ApplyOp(e, ops[i])) {
      GrowOpKeeps(g, d0, e, ops[i]);
    }
    ApplyInvariant(d0, ops, P);
  }
}
