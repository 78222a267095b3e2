/**
 Byte-granular writes into an allocated extent, and the flat byte array that
 the sector read-modify-write loop refines.
 */
module KuroExtent {
  import opened Bytes
  import opened KuroDisk
  import opened KuroBitmap
  import opened KuroAlloc

  // ----- The extent as a flat byte array -----

  /** Bytes [offset, offset + length) of the extent that starts at block first. */
  function Flat(d: Disk, first: nat, offset: nat, length: nat): (r: seq<Byte>)
    requires length == 0 || first * 512 + offset + length <= |d| * 512
    ensures |r| == length
  {
    seq(length, k requires 0 <= k < length => d[first + (offset + k) / 512][(offset + k) % 512])
  }

  /** d0 with the bytes from device address base on replaced by src, and nothing else changed. */
  ghost predicate Patched(d0: Disk, d: Disk, base: nat, src: seq<Byte>) {
    && |d| == |d0|
    && forall b, j :: 0 <= b < |d0| && 0 <= j < 512 ==>
         d[b][j] == if base <= b * 512 + j < base + |src| then src[b * 512 + j - base] else d0[b][j]
  }

  /** Splices bytes into one sector. */
  function Splice(sector: Sector, at: nat, bytes: seq<Byte>): (r: Sector)
    requires at + |bytes| <= 512
  {
    sector[..at] + bytes + sector[at + |bytes|..]
  }

  lemma PatchStep(d0: Disk, d: Disk, base: nat, src: seq<Byte>, done: nat, chunk: nat, b: nat, at: nat, sector: Sector)
    requires 0 < chunk && done + chunk <= |src| && at + chunk <= 512
    requires Patched(d0, d, base, src[..done])
    requires b < |d| && b * 512 + at == base + done
    requires sector == d[b] || (at == 0 && chunk == 512)
    ensures Patched(d0, d[b := Splice(sector, at, src[done..done + chunk])], base, src[..done + chunk])
    ensures WriteWithin(d0, Op.Write(b, Splice(sector, at, src[done..done + chunk])), base, base + |src|)
  {
  }

  /** A write that succeeded left the extent's flat array with exactly src spliced in. */
  lemma PatchedRefinesFlat(d0: Disk, d: Disk, first: nat, count: nat, offset: nat, src: seq<Byte>)
    requires first + count <= |d0| && offset + |src| <= count * 512
    requires Patched(d0, d, first * 512 + offset, src)
    ensures Flat(d, first, 0, count * 512)
         == Flat(d0, first, 0, count * 512)[..offset] + src + Flat(d0, first, 0, count * 512)[offset + |src|..]
  {
  }

  /** Other bytes of the device do not change, so every other extent reads as before. */
  lemma PatchedKeepsOthers(d0: Disk, d: Disk, base: nat, src: seq<Byte>, first: nat, offset: nat, length: nat)
    requires Patched(d0, d, base, src)
    requires first * 512 + offset + length <= |d0| * 512
    requires first * 512 + offset + length <= base || base + |src| <= first * 512 + offset
    ensures Flat(d, first, offset, length) == Flat(d0, first, offset, length)
  {
  }

  // ----- The write loop -----

  ghost predicate WritesWithin(d0: Disk, ops: seq<Op>, lo: int, hi: int) {
    forall i :: 0 <= i < |ops| ==> WriteWithin(d0, ops[i], lo, hi)
  }

  /** The state of a write after done bytes. */
  ghost predicate WriteProgress(d0: Disk, ops: seq<Op>, base: nat, src: seq<Byte>, done: nat) {
    && done <= |src|
    && WritesWithin(d0, ops, base, base + |src|)
    && Patched(d0, Apply(d0, ops), base, src[..done])
  }

  lemma WriteProgressStep(
    d0: Disk, ops: seq<Op>, base: nat, src: seq<Byte>, done: nat, chunk: nat, b: nat, at: nat, sector: Sector)
    requires WriteProgress(d0, ops, base, src, done)
    requires 0 < chunk && done + chunk <= |src| && at + chunk <= 512
    requires b < |d0| && b * 512 + at == base + done
    requires sector == Apply(d0, ops)[b] || (at == 0 && chunk == 512)
    ensures WriteProgress(
      d0, ops + [Op.Write(b, Splice(sector, at, src[done..done + chunk]))], base, src, done + chunk)
  {
    var op := Op.Write(b, Splice(sector, at, src[done..done + chunk]));
    PatchStep(d0, Apply(d0, ops), base, src, done, chunk, b, at, sector);
    assert (ops + [op])[..|ops + [op]| - 1] == ops;
  }

  /** Writes the bytes that fall into one sector, reading it first unless all of it is replaced. */
  method WriteChunk(
    fs: FileSystem, ghost d0: Disk, ghost n: nat, firstBlock: U64, offset: U64, source: seq<Byte>, done: nat)
    returns (status: Status, chunk: nat)
    requires n <= |fs.device.log| && fs.device.sectors == Apply(d0, fs.device.Since(n))
    requires WriteProgress(d0, fs.device.Since(n), firstBlock * 512 + offset, source, done)
    requires done < |source|
    requires firstBlock + (offset + done) / 512 < |d0| <= UINT64_MAX
    modifies fs.device
    ensures old(fs.device.log) <= fs.device.log
    ensures fs.device.sectors == Apply(d0, fs.device.Since(n))
    ensures WritesWithin(d0, fs.device.Since(n), firstBlock * 512 + offset, firstBlock * 512 + offset + |source|)
    ensures 0 < chunk
    ensures status == Ok ==>
      WriteProgress(d0, fs.device.Since(n), firstBlock * 512 + offset, source, done + chunk)
    ensures status in {Ok, BlockDeviceError}
    ensures fs.device.reliable ==> status == Ok
  {
    hide Apply, Patched, WritesWithin, Splice;
    var absolute := offset + done;
    var relativeBlock, inSector := absolute / 512, absolute % 512;
    var remaining, available := |source| - done, 512 - inSector;
    chunk := if remaining < available then remaining else available;
    var diskBlock := AddU64(firstBlock, relativeBlock);
    if diskBlock.Failure? {
      return ArithmeticOverflow, chunk;
    }
    var sector := ZeroSector();
    if inSector != 0 || chunk != 512 {
      status, sector := fs.device.Read(diskBlock.value);
      if status != Ok {
        return;
      }
    }
    WriteProgressStep(
      d0, fs.device.Since(n), firstBlock * 512 + offset, source, done, chunk, diskBlock.value, inSector, sector);
    sector := Splice(sector, inSector, source[done..done + chunk]);
    status := WriteOne(fs, d0, n, diskBlock.value, sector);
  }

  method WriteExtentData(fs: FileSystem, firstBlock: U64, blockCount: U64, offset: U64, source: seq<Byte>)
    returns (status: Status)
    requires fs.Ready() && |source| <= UINT64_MAX
    modifies fs.device
    ensures old(fs.device.log) <= fs.device.log
    ensures fs.device.sectors == Apply(old(fs.device.sectors), fs.device.Since(|old(fs.device.log)|))
    ensures WritesWithin(old(fs.device.sectors), fs.device.Since(|old(fs.device.log)|),
                         firstBlock * 512 + offset, firstBlock * 512 + offset + |source|)
    ensures status == Ok ==>
      && ExtentStatus(fs.geometry, old(fs.device.sectors), firstBlock, blockCount) == Ok
      && offset + |source| <= blockCount * 512
      && Patched(old(fs.device.sectors), fs.device.sectors, firstBlock * 512 + offset, source)
      && Settled(fs.device.Since(|old(fs.device.log)|))
      && (source != [] ==> Flushed(fs.device.Since(|old(fs.device.log)|)))
    ensures fs.device.log != old(fs.device.log) ==>
      && ExtentStatus(fs.geometry, old(fs.device.sectors), firstBlock, blockCount) == Ok
      && offset + |source| <= blockCount * 512
    ensures !fs.mounted ==> status == NotMounted
    ensures status == NoSpace ==> offset + |source| > blockCount * 512
    ensures fs.device.reliable && fs.mounted && offset + |source| <= blockCount * 512 ==>
      ExtentStatus(fs.geometry, old(fs.device.sectors), firstBlock, blockCount) == Ok ==> status == Ok
  {
    ghost var d0, n := fs.device.sectors, |fs.device.log|;
    if !fs.mounted {
      return NotMounted;
    }
    var capacity: U64;
    status, capacity := ValidateAllocatedExtent(fs, firstBlock, blockCount);
    if status != Ok {
      return;
    }
    var end := AddU64(offset, |source|);
    if end.Failure? {
      return ArithmeticOverflow;
    }
    if end.value > capacity {
      return NoSpace;
    }
    if |source| == 0 {
      return Ok;
    }
    var done := 0;
    while done < |source|
      invariant 0 <= done <= |source|
      invariant old(fs.device.log) <= fs.device.log
      invariant fs.device.sectors == Apply(d0, fs.device.Since(n))
      invariant WriteProgress(d0, fs.device.Since(n), firstBlock * 512 + offset, source, done)
    {
      var chunk: nat;
      status, chunk := WriteChunk(fs, d0, n, firstBlock, offset, source, done);
      if status != Ok {
        return;
      }
      done := done + chunk;
    }
    assert source[..done] == source;
    status := FlushAll(fs, d0, n);
  }
}
